# Verified model of HTTPeek's codecs, protocols and stores

HTTPeek is an intercepting proxy. This project models the parts of it that compute something a
user relies on, and proves what they promise: the schema-less Protocol Buffers decoder and the gRPC
framer, the WebSocket relay with its printer and its second parser, the pause/resume protocol of
breakpoints, the patterns compiled from globs and the filters built on them, the rate limiter, the
session and favourites tables, the crash-safe rules file, the event-stream relay, ECB with its
padding, and the CSV and shell printers.

`dafny verify dfyconfig.toml` checks everything.

## How it is laid out

Each module follows one source file, or one component of it.

| Module | Follows | Form |
|---|---|---|
| `ProtoDecoder`, `GrpcFrames` | `pkg/grpc/proto_decoder.go` | loops proved against a grammar, and an encoder as its inverse |
| `WebSocket` | `pkg/proxy/ws.go` | the relay loop, proved against a reading of the whole stream |
| `MobileSocket`, `RateLimiter` | `pkg/proxy/mobile_api.go` | the array-filling printer and read loop; the limiter as a class |
| `Breakpoint` | `pkg/interceptor/breakpoint.go` | a step system over every interleaving, and a class whose methods are its steps |
| `GlobRegex`, `HostFilter`, `Hosts` | `pkg/interceptor/filter.go`, `rewrite.go`, `hosts.go` | a regular-expression parser and semantics; the filters as classes over shared slices |
| `UniqueNames`, `RuleIds` | `pkg/interceptor/rule_ids.go` | the numbering search, and the loop over rule objects |
| `SessionStore`, `SessionRepo` | `pkg/storage/session_repo.go`, `db.go` | steps on keyed tables; the repository as a class over them |
| `RulesFile`, `RulesWriters` | `internal/services/rules.go` | a file-system step system with crashes, and a class for the code; the same with several saves at once |
| `SseRelay` | `pkg/proxy/sse.go` | the line loop, proved against chunked coding and a reading of blocks |
| `EcbPadding` | `app_toolbox.go`, `pkg/interceptor/crypto.go` | block loops over buffers for an arbitrary cipher |
| `Exports` | `pkg/storage/har.go` | printers, with readers for CSV and for shell words |
| `Utf8`, `Base64` | | the check for text and the encoding behind it (RFC 3629); the text in which raw bytes are shown (RFC 4648, section 4) |
| `Bytes`, `Text`, `Sequences` | | octets, byte orders, exclusive or; string operations and numerals; regrouping |

Code that changes state in place is written as a method or a class and proved equal to a function of
its inputs or of its old state; the properties are lemmas about that function. The functions are
independent of the loops where that matters: the meaning of a pattern's text comes from a parser and
a matcher for regular expressions, the meaning of chunks from the chunk grammar, the meaning of
quoted text from a CSV and a shell reader.

Outside code enters as a parameter: `gunzip`, the block cipher, JSON rendering and parsing, case
mapping, white space, user-written regular expressions and the generator of fresh identifiers.
Time is a parameter too and does not run backwards. What a parameter must satisfy is in the
`requires` of the lemmas that use it.

## Where the code differs from what it says

Each of these is kept as the code has it. The lemma named says when the code meets the promise, or
shows the input on which it does not.

- A declared Protocol Buffers length of 2^63 or more passes the signed check of
  `pkg/grpc/proto_decoder.go:170` and panics in `make`. Decoding therefore has a third outcome besides
  success and error, and it has it exactly when a walk over the fields' sizes, into payloads that are
  not text, meets such a length (`ProtoDecoder.PanicsExactly`; for the framer,
  `GrpcFrames.ParsePanicsExactly`). Bytes in which no position reads as a varint that large are safe
  (`ProtoDecoder.SmallVarintsDoNotPanic`).
- The decoder recovers a message exactly when every field survives its guess between text, nested
  message and bytes (`ProtoDecoder.DecodeInvertsEncode`); which fields do is a condition on each
  field alone. Raw bytes are shown as their Base64 text and texts as they are, both as strings, so all
  raw bytes but the empty ones have a twin that is shown alike
  (`ProtoDecoder.RawBytesHaveATwin`; the bytes 1, 2, 3 and the text `AQID` are one such pair), and that
  is the only way different payloads are shown alike besides messages with the same values in each
  field (`ProtoDecoder.ShownAlikeExactly`).
- A key of 24 bytes is refused by the interceptor although the comment and the error text name it,
  so what the toolbox encrypts with one cannot be decrypted there, and only then
  (`EcbPadding.DecryptInvertsEncrypt`).
- A rate limit below one still lets one call through in each window. The largest number of calls in
  any window's length is `2 * max(1, limit) - 1`, or `max(1, limit)` when that length is zero, and
  some run attains it (`RateLimiter.SlidingWindowBound`, `RateLimiter.SlidingWindowBoundIsTight`).
- In a host pattern a star does not stand for a newline; on hosts without one it is the glob
  (`GlobRegex.HostTextMeansGlob`).
- A plain host rule submitted again after it was a wildcard keeps its old expression. A rule means
  its pattern for every host if and only if the pattern is not plain or nothing was compiled for the
  rule before, apart from a user's own expression that happens to be right (`Hosts.RightExactly`);
  after a wildcard there always is a host it is wrong for (`Hosts.WildcardIsNoName`). The application
  itself hands `SetRules` rules that were decoded afresh each time (`app_rules.go:42-46`,
  `internal/services/rules.go:266-275`); other callers of the package need not.
- `SetConfig` keeps the caller's slices. A caller that writes to one later changes what `GetConfig`
  reports and not what is decided, which follows the patterns as they were handed in
  (`HostFilter.Filter.ShouldFilter`; `HostFilter.EditedSliceDisagrees` does it). Again the application
  hands over freshly decoded slices (`app_rules.go:200-203`, `internal/services/rules.go:341-347`), and
  only other callers of the package can meet this.
- If moving `rules.json` to the backup fails and the final rename fails as well, restoring puts an
  older backup in place; this is the only step that can lose the saved configuration
  (`RulesFile.HazardExactly`, `RulesFile.FailedRotationCanRestoreOlder`). A `rules.json` that cannot be
  read is moved over a readable backup: from a given disk every run with working rotations is safe
  if and only if there is no such pair (`RulesFile.SafeExactlyFromSound`).
- Saves of the rules take no lock and share one temporary file (`internal/services/rules.go:62-73`,
  `:97-101`), and the desktop bindings and the HTTP endpoints of the mobile API can both start one.
  Everything said of crashes holds as long as no save begins before the one before it has ended
  (`RulesWriters.SerialSavesAreSafe`). That cannot be dropped: from wherever one save stands, a second
  one begun there can undo it, or be undone, without any crash or failed rotation
  (`RulesWriters.OverlapLosesSave`), except where all that is left to the first is a restore without a
  backup (`RulesWriters.SpentSaveIsHarmless`); and with a crash the first can
  report success and leave the older configuration (`RulesWriters.TornSaveIsLost`).
- Choosing a session name and storing it are separate statements on a pool of connections
  (`pkg/storage/session_repo.go:53-65`, `:80-84`). Two calls that both choose before either stores can
  give one name twice; one after the other they cannot (`SessionStore.TwoChoicesOneName`).
- `DeleteFavorite`, and a batch with nil entries, leave `request_count` above the number of rows;
  nothing else does (`SessionStore.StepExactIff`, `SessionStore.RunStaysExact`).
- The read loop of the mobile API applies none of the relay's checks and limits only 64-bit lengths.
  It reads what the relay forwards and no more if and only if a close frame comes first, the relay ran
  out of bytes, or the loop leaves as well where the relay refused (`MobileSocket.ParsersAgree`); it
  takes, for one, a text frame with a reserved bit set (`MobileSocket.ReadLoopTakesRefusedFrame`).
- A command finds a pause for exactly as long as nothing touches its identifier
  (`Breakpoint.AnswerableExactlyUntouched`). So a second pause with the identifier of one still
  waiting strands the first, and when the first then times out it strands the second
  (`Breakpoint.ReusedIdentifierStrandsTheFirst`, `Breakpoint.FirstTimeoutStrandsTheSecond`). Safety does
  not need fresh identifiers; reaching a pause does.
- That a command found its pause does not mean its answer is returned. The waiter returns it if and
  only if it receives before its timer is picked (`Breakpoint.AnswerArrivesExactly`); the timer may be
  picked before the command or although the answer is there, and then the answer is lost and nobody is
  told (`Breakpoint.AnswersGetLost`).
- The CSV export ends its lines with bare newlines, so a reader that takes only the line ends of RFC
  4180 reads no export at all, while one that also takes newlines reads every export
  (`Exports.ExportReadsBack`).

## Model

| member | source | states |
|---|---|---|
| ProtoDecoder.DecodeInvertsEncode | pkg/grpc/proto_decoder.go:128-207 | decoding the wire form of any tree of fields, nested and repeated, returns exactly that tree, grouped by number in wire order, if and only if every field at every depth is one the guess can recover: printable or empty text, sub-messages that are neither empty nor text, bytes that are neither text nor a readable message |
| ProtoDecoder.DecodeProtobufWire | pkg/grpc/proto_decoder.go:128-207 | the loop with its recursion computes, for every input, the fields of the wire grammar grouped by number, and how reading ends |
| ProtoDecoder.InterpretPayload | pkg/grpc/proto_decoder.go:178-187 | text if valid and printable UTF-8, else a message if it parses to one with fields, else the Base64 text of the bytes |
| ProtoDecoder.ReadFieldValue | pkg/grpc/proto_decoder.go:147-203 | each wire type reads its value and size, or ends with an error, a panic or, for an unknown type, quietly |
| ProtoDecoder.ReadUvarintLoop | pkg/grpc/proto_decoder.go:133-171 | the shifting loop for varints computes the recursive reading, with the ten-byte and 64-bit limits |
| ProtoDecoder.ReadOnReads | pkg/grpc/proto_decoder.go:133-171 | a varint read from its middle continues the value of the bytes before it |
| ProtoDecoder.UvarintRoundTrip | pkg/grpc/proto_decoder.go:133-171 | every 64-bit number is read back from its shortest varint, whatever follows it |
| ProtoDecoder.ReadUvarintExactly | pkg/grpc/proto_decoder.go:133-171 | a number is read exactly when one to ten bytes are there of which all but the last have the high bit, within 64 bits, shortest form or not; it is the sum of their low seven bits, the first lowest |
| ProtoDecoder.FixedWidths | pkg/grpc/proto_decoder.go:156-200 | four and eight bytes are read little-endian, the weight of every byte spelled out |
| Utf8.ValidExactly | pkg/grpc/proto_decoder.go:179 | the UTF-8 check accepts just the encodings of characters, surrogates excluded |
| ProtoDecoder.TextExactly | pkg/grpc/proto_decoder.go:179 | a payload is text exactly when it is the non-empty encoding of characters that are shown |
| ProtoDecoder.ShowsExactly | pkg/grpc/proto_decoder.go:221-232 | all characters are shown but the control characters other than tab, newline and return |
| ProtoDecoder.CharactersAreShown | pkg/grpc/proto_decoder.go:178-180 | the encoding of any such characters is shown as itself, in whatever script |
| ProtoDecoder.AppendOrSetGroups | pkg/grpc/proto_decoder.go:209-219 | adding a field turns one value into a list and extends a list, so the map always holds the values of each number in wire order |
| ProtoDecoder.IsAllPrintableText | pkg/grpc/proto_decoder.go:221-232 | true exactly for non-empty bytes without control characters other than tab, newline and return |
| ProtoDecoder.SlotsAreInWireOrder | pkg/grpc/proto_decoder.go:209-219 | for every input the map holds, for each number, the value of the only field that has it or the values of all that have it, in the order of the fields |
| ProtoDecoder.FieldsBeforeTheEnd | pkg/grpc/proto_decoder.go:128-207 | recoverable fields before an end of the message are returned without an error, and those before a value cut short are returned with one |
| ProtoDecoder.FailsExactly | pkg/grpc/proto_decoder.go:150-199 | decoding is an error if and only if some value is cut short before anything panics; a bad tag, number zero or an unknown wire type is none |
| ProtoDecoder.FieldsRoundTrip | pkg/grpc/proto_decoder.go:128-207 | recoverable fields are scanned back in order and to the end |
| ProtoDecoder.ReadBackIsRecoverable | pkg/grpc/proto_decoder.go:178-187 | conversely, fields that were scanned back are recoverable at every depth |
| ProtoDecoder.GroupInjective | pkg/grpc/proto_decoder.go:209-219 | the map determines the fields once their numbers and order are known, so decoding a message of a known shape loses no value |
| ProtoDecoder.GroupedAlikeExactly | pkg/grpc/proto_decoder.go:209-219 | two lists of fields make the same map if and only if every number has the same values in the same order: only the order among different numbers is lost |
| ProtoDecoder.ShownAlikeExactly | pkg/grpc/proto_decoder.go:178-187 | two payloads are shown alike if and only if they are the same bytes, are messages with the same values in each field, or one is raw and the other the text that spells it in Base64 |
| ProtoDecoder.RawBytesHaveATwin | pkg/grpc/proto_decoder.go:178-187 | all raw bytes but the empty ones are shown just like a different payload, of text |
| ProtoDecoder.TwinsDecodeAlike | pkg/grpc/proto_decoder.go:128-207 | in a field, such twins decode to one and the same map |
| ProtoDecoder.OneTwoThree | pkg/grpc/proto_decoder.go:178-187 | the witness: the bytes 1, 2, 3 are shown as the text AQID |
| Base64.EncodedReadsBack | pkg/grpc/proto_decoder.go:186 | the bytes are read back from their Base64 text |
| Base64.SextetIsLetter | pkg/grpc/proto_decoder.go:186 | the alphabet, letter by letter |
| Base64.QuadHoldsBits | pkg/grpc/proto_decoder.go:186 | four characters hold the bits of up to three bytes, most significant first; one and two signs at the end stand for two bytes and one |
| Base64.EncodedByGroups | pkg/grpc/proto_decoder.go:186 | every three bytes in turn become their four characters |
| Base64.EncodedIsLonger | pkg/grpc/proto_decoder.go:186 | the text is longer than the bytes, and printable ASCII |
| ProtoDecoder.PanicsExactly | pkg/grpc/proto_decoder.go:165-187 | decoding panics if and only if a walk over field sizes alone, into payloads that are not text, meets a declared length of 2^63 or more, at whatever field and depth |
| ProtoDecoder.SmallVarintsDoNotPanic | pkg/grpc/proto_decoder.go:165-187 | bytes in which no position reads as a varint of 2^63 or more never make decoding panic |
| ProtoDecoder.HugeLengthPanics | pkg/grpc/proto_decoder.go:165-173 | the witness: a first field that declares 2^63 bytes or more makes decoding panic, for every number and continuation |
| GrpcFrames.ParseGrpcFrames | pkg/grpc/proto_decoder.go:55-125 | the framing loop shows the frames the input splits into, in order, or panics when one of them does |
| GrpcFrames.ParsePanicsExactly | pkg/grpc/proto_decoder.go:55-125 | the framer panics if and only if some whole frame that is not a trailer declares too large a length once inflated |
| GrpcFrames.HexTextReadsBack | pkg/grpc/proto_decoder.go:101-107 | the hexadecimal rendering of a payload is read back as its bytes |
| GrpcFrames.ShownOfFrame | pkg/grpc/proto_decoder.go:69-121 | what each kind of frame shows: flags, length and rendering; a cut frame and a trailer as they are, the trailer's text being its payload; a data frame inflated where it can be, with fields only if decoding ends well |
| GrpcFrames.ShownInOrder | pkg/grpc/proto_decoder.go:55-125 | one message a frame, each in its place |
| GrpcFrames.PresentFrame | pkg/grpc/proto_decoder.go:89-121 | a whole frame is inflated if flagged and shown, with its rendering, as a trailer or as its decoded fields |
| GrpcFrames.ReadFrame | pkg/grpc/proto_decoder.go:60-94 | a header and its payload, or all that is left when the payload is cut short, shown undecoded |
| GrpcFrames.SplitConservesBytes | pkg/grpc/proto_decoder.go:59-94 | frames written back, followed by a tail shorter than five bytes, are the input; only the last frame may be short, and then nothing follows it |
| GrpcFrames.FramingCountsBytes | pkg/grpc/proto_decoder.go:59-94 | five bytes a frame, the payloads and the tail add up to the input |
| GrpcFrames.SplitInvertsEncode | pkg/grpc/proto_decoder.go:59-94 | any run of whole frames and a tail shorter than a header splits back into just those |
| GrpcFrames.ParseInvertsSend | pkg/grpc/proto_decoder.go:55-125 | a stream of uncompressed frames of recoverable messages is shown as those messages, each decoded to its own fields |
| WebSocket.InterceptWSFrames | pkg/proxy/ws.go:203-317 | what is written is the relayed frames unchanged and, if the stream was refused, one close frame; listeners are told each relayed frame |
| WebSocket.ReadFrame | pkg/proxy/ws.go:207-263 | the parts are read and checked in order, with the code's close code and reason for each refusal |
| WebSocket.RefusedWith | pkg/proxy/ws.go:211-250 | by the bits and the declared length of the header it stops at: 1002 "RSV bits set" for any reserved bit, else 1009 for a length over 16 MiB, else 1002 "invalid control frame" for a fragmented or longer one; nothing else is refused |
| WebSocket.AcceptableExactly | pkg/proxy/ws.go:211-263 | what is forwarded, bit by bit and size by size |
| WebSocket.RelayIsTransparent | pkg/proxy/ws.go:206-316 | for every stream the forwarded bytes are the longest prefix of whole acceptable frames, and the relay refuses exactly when the header is there and no continuation can make it acceptable |
| WebSocket.RelayConservesBytes | pkg/proxy/ws.go:299-315 | forwarded frames and what is left are the stream byte for byte, and no partial or unacceptable frame is forwarded |
| WebSocket.RelayIsLongest | pkg/proxy/ws.go:206-316 | any list of acceptable frames that starts the stream is a prefix of the forwarded one |
| WebSocket.RelayInvertsSerialize | pkg/proxy/ws.go:206-272 | acceptable frames written one after another are forwarded one by one, whatever follows |
| WebSocket.RefusedCannotComplete | pkg/proxy/ws.go:211-250 | a refused header cannot become an acceptable frame, whatever bytes arrive |
| WebSocket.NotRefusedCanComplete | pkg/proxy/ws.go:221-263 | a header that is there and not refused can |
| WebSocket.MaskingAgainRestores | pkg/proxy/ws.go:265-272 | masking the inspected payload again gives the forwarded payload |
| WebSocket.UnmaskedBits | pkg/proxy/ws.go:265-272 | each bit of an inspected byte is that of the forwarded byte, turned where the key's byte in turn has one; without the mask bit there is no key and nothing is turned |
| WebSocket.Unmask | pkg/proxy/ws.go:265-272 | the loop on a copy combines each byte with its byte of the key |
| WebSocket.ShownIsForwarded | pkg/proxy/ws.go:265-295 | masked again, what listeners are shown is the first 64 KiB of the forwarded payload; a text frame below one MiB shows the whole payload as text, no other frame shows any; and the length is the forwarded one |
| WebSocket.InspectedInOrder | pkg/proxy/ws.go:285-297 | listeners are told every forwarded frame, in its place |
| WebSocket.WriteWSCloseFrame | pkg/proxy/ws.go:33-39 | the two writes are one unmasked close frame with the code and the reason |
| WebSocket.FarewellIsAcceptable | pkg/proxy/ws.go:33-39 | the close frame of any refused stream is itself acceptable and unmasked, carries the code and, character by character, the reason, and is read back whole |
| MobileSocket.EncodeWSTextFrame | pkg/proxy/mobile_api.go:1407-1433 | the buffer filled in place is the text frame, in the shortest of the three length forms |
| MobileSocket.TextFrameIsAcceptable | pkg/proxy/mobile_api.go:1407-1433 | up to 16 MiB the printed frame passes the relay and shows its payload |
| MobileSocket.RelayInvertsPrinter | pkg/proxy/mobile_api.go:1407-1433 | any run of printed frames is read back by the relay as the same payloads with nothing left over |
| MobileSocket.ReadTurn | pkg/proxy/mobile_api.go:1217-1268 | one turn of the read loop, with its own limit for 64-bit lengths only |
| MobileSocket.TakenExactly | pkg/proxy/mobile_api.go:1217-1260 | a turn takes just the frames that are there, are no close frame and do not declare over 32 MiB in 64 bits |
| MobileSocket.TakenMessage | pkg/proxy/mobile_api.go:1217-1267 | what it takes is the opcode and the declared payload, unmasked with the key before it |
| MobileSocket.TooLargeExactly | pkg/proxy/mobile_api.go:1242-1246 | it leaves with a close frame for just the 64-bit lengths over 32 MiB |
| MobileSocket.TextsInPlace | pkg/proxy/mobile_api.go:1270-1275 | the messages handed on are just those of opcode 1, each in its place |
| MobileSocket.PongsAnswerPings | pkg/proxy/mobile_api.go:1270-1273 | the relay reads what is written back as one empty pong for each message of opcode 9 |
| MobileSocket.PartingCloses | pkg/proxy/mobile_api.go:1243-1245 | leaving for too large a frame writes one close frame 1009, leaving otherwise nothing |
| MobileSocket.ReadLoop | pkg/proxy/mobile_api.go:1217-1276 | hands on the text messages, in order, answers each ping with an empty pong, and closes on too large a frame |
| MobileSocket.ParsersAgree | pkg/proxy/mobile_api.go:1217-1276 | on every stream the read loop begins with the opcodes and payloads the relay forwards up to the first close frame, and reads no others if and only if there is a close frame, the relay ran out of bytes, or the loop leaves too where the relay refused |
| MobileSocket.ReadLoopTakesRefusedFrame | pkg/proxy/mobile_api.go:1217-1276 | the witness: an empty text frame with a reserved bit set is refused by the relay and taken by the read loop |
| Breakpoint.EveryRunIsSafe | pkg/interceptor/breakpoint.go:132-336 | in every interleaving no send blocks or meets a closed channel and none is closed twice, each pause has at most one send and one close, a resumed or aborted waiter returns what was sent or was closed with nothing sent, one that timed out left what it was sent unread, and a finished pause has no map entry |
| Breakpoint.StepKeepsInv | pkg/interceptor/breakpoint.go:132-336 | every step keeps the invariant that the map only holds open, empty, unanswered channels of unfinished pauses |
| Breakpoint.OutcomeIsFinal | pkg/interceptor/breakpoint.go:185-198 | once a waiter has an outcome no later event changes it |
| Breakpoint.CommandReachesItsPause | pkg/interceptor/breakpoint.go:272-303 | after any run, a command for an identifier used once reaches its unanswered, uncancelled, selecting pause; whatever follows, the waiter returns just what was sent if and only if it receives before its timer is picked |
| Breakpoint.AnswerArrivesExactly | pkg/interceptor/breakpoint.go:185-198 | over every continuation, an answered waiter in select returns its answer if and only if the receiving branch is picked first, times out if and only if the timer is, and waits otherwise |
| Breakpoint.UnmodifiedReturnsTheOriginal | pkg/interceptor/breakpoint.go:283-292 | after any run, resuming unmodified sends a pause used once what was paused, and the waiter returns that if and only if it receives before its timer is picked |
| Breakpoint.OriginalIsWhatBegan | pkg/interceptor/breakpoint.go:151-158 | after any run a pause holds the exchange and the identifier it began with |
| Breakpoint.NewPauseWaits | pkg/interceptor/breakpoint.go:151-183 | a new pause waits, open and unanswered, under its identifier, watched if there is a context, and changes no other |
| Breakpoint.ClosedAbortsExactly | pkg/interceptor/breakpoint.go:185-198 | over every continuation, a waiter whose channel was closed unanswered aborts if and only if it receives before its timer is picked |
| Breakpoint.CancelledWaiterAborts | pkg/interceptor/breakpoint.go:178-190 | after any run, a context that ends takes the entry away and closes the channel, and so aborts an unanswered waiter |
| Breakpoint.NothingToReceive | pkg/interceptor/breakpoint.go:185-190 | an unanswered waiter with an open channel goes on waiting |
| Breakpoint.NoContextStaysOpen | pkg/interceptor/breakpoint.go:175-177 | without a context the channel is never closed |
| Breakpoint.PickedTimerEnds | pkg/interceptor/breakpoint.go:191-196 | a picked timer ends in a timeout with no entry left |
| Breakpoint.AppliesExactly | pkg/interceptor/breakpoint.go:135-142 | a rule must be enabled, be for the side, be for the method in any case or for all, and match the URL |
| Breakpoint.AnswersGetLost | pkg/interceptor/breakpoint.go:185-198 | the witnesses: an answer sent before, and one sent after, the timer is picked ends in a timeout |
| Breakpoint.AnswerableExactlyInMap | pkg/interceptor/breakpoint.go:153-158 | a pause can still be sent something, now or later, if and only if the map reaches it |
| Breakpoint.GoneForGood | pkg/interceptor/breakpoint.go:169-183 | a pause the map no longer reaches is never sent anything again |
| Breakpoint.AnswerableExactlyUntouched | pkg/interceptor/breakpoint.go:151-303 | after any run, a new pause stays in the map exactly until an event touches its identifier: a pause that begins with it, a command that names it, or a timeout or context end of any pause with it |
| Breakpoint.FirstTimeoutStrandsTheSecond | pkg/interceptor/breakpoint.go:191-196 | with an identifier used twice the first pause's timeout also takes the second, still waiting, out of reach |
| Breakpoint.ReusedIdentifierStrandsTheFirst | pkg/interceptor/breakpoint.go:153-158 | with an identifier used twice the first pause is waiting but out of reach |
| Breakpoint.RequestBreakpointInterceptor.SetRules | pkg/interceptor/breakpoint.go:104-120 | every rule gets an identifier of its own and the expression of its URL pattern, none when that is blank or refused; nothing else of it changes |
| Breakpoint.RuleAppliesToGlob | pkg/interceptor/breakpoint.go:109-120 | a rule compiled from a pattern without the prefix for expressions applies to just the URLs part of which matches the glob, for its side and method |
| Breakpoint.RequestBreakpointInterceptor.Arrive | pkg/interceptor/breakpoint.go:132-158 | an exchange is paused if and only if a rule applies to it, and otherwise nothing changes |
| Breakpoint.RequestBreakpointInterceptor.PauseExchange | pkg/interceptor/breakpoint.go:151-158 | registering a pause is the step that begins it |
| Breakpoint.RequestBreakpointInterceptor.Resume | pkg/interceptor/breakpoint.go:272-281 | the entry is deleted and the message sent to an open, empty channel; nil aborts |
| Breakpoint.RequestBreakpointInterceptor.ResumeUnmodified | pkg/interceptor/breakpoint.go:283-292 | the same with the exchange as it was paused |
| Breakpoint.RequestBreakpointInterceptor.Receive | pkg/interceptor/breakpoint.go:186-190 | the receiving branch returns the message, or an abort for nil or a closed channel |
| Breakpoint.RequestBreakpointInterceptor.TimeOut | pkg/interceptor/breakpoint.go:191-196 | the timer branch deletes the entry and returns a timeout |
| Breakpoint.RequestBreakpointInterceptor.ForgetCancelled | pkg/interceptor/breakpoint.go:178-181 | the cleaner deletes the entry under the lock |
| Breakpoint.RequestBreakpointInterceptor.Close | pkg/interceptor/breakpoint.go:182 | the cleaner closes a channel that is still open |
| RateLimiter.FixedWindowLimiter.Allow | pkg/proxy/mobile_api.go:61-83 | one call sweeps if due and counts, answering by the entry the client then has |
| RateLimiter.SweepIsUnobservable | pkg/proxy/mobile_api.go:66-74 | from any state and over any run, every call gets the answer of a limiter that never sweeps |
| RateLimiter.SlidingWindowBound | pkg/proxy/mobile_api.go:61-83 | over any run a client is allowed at most 2 * max(1, limit) - 1 times in any closed interval as long as the window, and max(1, limit) times when that length is zero, whoever else calls |
| RateLimiter.SlidingWindowBoundIsTight | pkg/proxy/mobile_api.go:61-83 | for every limit and window, below one and zero included, some run attains that number |
| RateLimiter.FixedWindowCount | pkg/proxy/mobile_api.go:76-82 | of the n calls from the one that opens a window to its end exactly min(n, max(1, limit)) are allowed |
| GlobRegex.GlobTextIsPieces | pkg/interceptor/filter.go:140-141 | quoting a pattern and replacing each quoted star touches exactly the pattern's stars, backslashes and metacharacters included |
| GlobRegex.PiecesParse | pkg/interceptor/filter.go:140-142 | that text is well formed and parses to one expression a character, whatever comes after it |
| GlobRegex.GlobReMatches | pkg/interceptor/filter.go:140-142 | the parsed expression matches a stretch of a string exactly when it is a match of the glob followed by one of the rest |
| GlobRegex.HostTextMeansGlob | pkg/interceptor/filter.go:135-144 | for every pattern the anchored text compiles and matches a host exactly when the glob does, stars stopping at newlines; on a host without one, exactly the glob |
| GlobRegex.LineGlobIsGlob | pkg/interceptor/filter.go:140-142 | without newlines the two readings of a star are the same |
| GlobRegex.LoneStar | pkg/interceptor/filter.go:141 | with a newline they are not |
| GlobRegex.UrlTextMeansGlob | pkg/interceptor/rewrite.go:418-424 | the unanchored text compiles and matches a URL exactly when part of the URL matches the glob ignoring case; the optional scheme changes nothing |
| GlobRegex.UrlRuleMeansGlob | pkg/interceptor/rewrite.go:411-425 | a URL pattern is unset exactly when it is all white space; without the prefix for expressions it compiles and means its glob; after the prefix it is the user's expression, or an error |
| GlobRegex.UrlGlobOnOneLine | pkg/interceptor/rewrite.go:418-424 | on a URL without newlines the parts that count are those that match the glob outright |
| HostFilter.CompiledListAgrees | pkg/interceptor/filter.go:92-113 | a compiled list matches exactly the hosts some raw pattern matches, and is empty exactly when all patterns are blank |
| HostFilter.NamesExactly | pkg/interceptor/filter.go:135-144 | a pattern names a host if, in lower case and without the white space around it, it is not empty and matches the host in lower case as a glob |
| HostFilter.BypassedExactly | pkg/interceptor/filter.go:45-71 | with a whitelist in force a host is bypassed if and only if no pattern of it names the host; otherwise if and only if the blacklist is enabled and one of its patterns does |
| HostFilter.BlacklistOnlyBlocks | pkg/interceptor/filter.go:126-133 | over the filter's calls: one pattern more on the blacklist never lets a bypassed host through |
| HostFilter.WhitelistOnlyAdmits | pkg/interceptor/filter.go:116-123 | over the filter's calls: one pattern more on a whitelist in force never bypasses another host |
| HostFilter.Filter.constructor | pkg/interceptor/filter.go:29-42 | the initial lists, compiled as configured |
| HostFilter.Filter.SetConfig | pkg/interceptor/filter.go:92-113 | the configuration is replaced, the caller's slices become the raw lists without a copy, and the compiled lists are those of their contents |
| HostFilter.Filter.GetConfig | pkg/interceptor/filter.go:74-89 | the lists reported are new copies of the raw ones, so no write to them reaches the filter |
| HostFilter.Filter.AddWhitelist | pkg/interceptor/filter.go:116-123 | one raw pattern and its expression more, in a new slice, whatever the caller wrote to the old one, and the rest untouched |
| HostFilter.Filter.AddBlacklist | pkg/interceptor/filter.go:126-133 | the same for the other list |
| HostFilter.Filter.ShouldFilter | pkg/interceptor/filter.go:45-71 | the answer from the compiled lists is the one glob matching gives on the patterns as handed in, and so on the raw lists unless a caller wrote to its slices; both lists and both flags decide as the code has them |
| HostFilter.EditedSliceDisagrees | pkg/interceptor/filter.go:92-113 | the witness: after SetConfig the caller writes one pattern over another in its slice; the filter reports the new one and goes on deciding by the old |
| Hosts.CompiledMeansPattern | pkg/interceptor/hosts.go:67-87 | a compiled rule means its pattern, as an expression, a glob or a name in any case, unless it is plain and carries an expression |
| Hosts.RightExactly | pkg/interceptor/hosts.go:67-87 | after any sequence of patterns, a rule means its last one for every host if and only if that is not plain or nothing was compiled before; a wildcard before always makes it wrong, a user's own expression unless it does not compile or matches just the name |
| Hosts.WildcardIsNoName | pkg/interceptor/hosts.go:67-87 | for every wildcard and every plain pattern after it there is a host that the rule then hits and the pattern does not mean |
| Hosts.StaleRuleFollowsOldPattern | pkg/interceptor/hosts.go:67-87 | a rule that turned plain follows the glob it had before, on every host |
| Hosts.HostsInterceptor.SetRules | pkg/interceptor/hosts.go:62-89 | every rule gets an identifier of its own, kept where all differ already, and an expression compiled from its pattern and what it carried, however often it is listed; nothing else of it changes |
| Hosts.HostsInterceptor.RedirectsExactly | pkg/interceptor/hosts.go:106-122 | a rule redirects a host if it is enabled, has a target that is not white space, and hits the host by its expression or else by its name in any case |
| Hosts.HostsInterceptor.PreConnect | pkg/interceptor/hosts.go:102-126 | the trimmed target of the first enabled, matching rule that has one, or the host itself |
| UniqueNames.TakenNumbersAreFew | pkg/interceptor/rule_ids.go:21-30 | pigeonhole: a run of taken numbers is no longer than the set of names, so the search ends |
| UniqueNames.FirstFree | pkg/interceptor/rule_ids.go:21-30 | the search ends with the first number that is free |
| UniqueNames.NumberedShows | pkg/interceptor/rule_ids.go:24 | the number stands between its marks in decimal, without a zero in front |
| RuleIds.SecondChoice | pkg/interceptor/rule_ids.go:21-30 | the second rule that wants an identifier gets it with "-1" |
| RuleIds.EnsureUniqueIDs | pkg/interceptor/rule_ids.go:14-35 | every rule ends with a non-empty identifier no other rule has, each the first choice left by the rules before it, and keeps its own where all differ already |
| RuleIds.NameRule | pkg/interceptor/rule_ids.go:16-34 | one turn of the loop gives a rule its own identifier, or a new one, or it with the first free number |
| RuleIds.ChosenNamesDiffer | pkg/interceptor/rule_ids.go:20-33 | identifiers given out in one pass are pairwise distinct |
| RuleIds.UniqueIdsAreKept | pkg/interceptor/rule_ids.go:14-35 | idempotence: identifiers that are there and differ already are kept |
| SessionStore.SavingStores | pkg/storage/session_repo.go:112-209 | saving adds one row as it was captured and counts it, or does nothing where a key refuses it; nothing else changes |
| SessionStore.BatchStores | pkg/storage/session_repo.go:250-330 | a batch whose rows are all new and different adds each of them and counts its entries; any other does nothing |
| SessionStore.ResponseUpdates | pkg/storage/session_repo.go:333-380 | a response replaces what its row holds of one; session, flag and start time stay |
| SessionStore.DeletionDeletes | pkg/storage/session_repo.go:406-438 | deleting a session deletes it and every row of it, no other session or row, and copies its favourites as they are |
| SessionStore.TogglingMarks | pkg/storage/session_repo.go:441-487 | marking sets the flag and copies the row, unmarking clears it and drops the copy; the row stays |
| SessionStore.DeletingAFavorite | pkg/storage/session_repo.go:491-504 | deletes the row and the copy, and nothing else |
| SessionStore.NamingNames | pkg/storage/session_repo.go:48-88 | creating adds an empty session under the name found; renaming gives it that name and keeps its count |
| SessionStore.SecondName | pkg/storage/session_repo.go:95-108 | the second session that wants a name gets it with " (2)" |
| SessionStore.PruningRecounts | pkg/storage/session_repo.go:213-247 | pruning that deletes a row sets the count to the rows left, and touches no other session; without a session or a ceiling it does nothing |
| SessionStore.FavViewExactly | pkg/storage/session_repo.go:602-645 | the favourites are the flagged rows, with what they hold now, and the copies of other identifiers |
| SessionStore.DeleteSessionKeepsFavorites | pkg/storage/session_repo.go:406-438 | deleting any session leaves the favourites, read as a map, unchanged from every state of the tables |
| SessionStore.PruneKeepsFavorites | pkg/storage/session_repo.go:213-247 | so does pruning |
| SessionStore.ToggleChangesOneFavorite | pkg/storage/session_repo.go:441-487 | marking lists the request with its content, unmarking removes it, and no other identifier changes |
| SessionStore.FavoriteOutlivesSessions | pkg/storage/session_repo.go:48-504 | over any run, an identifier's place and content among the favourites change only by a call about that identifier; deleting, pruning, renaming and filling sessions never do it |
| SessionStore.StepKeepsListed | pkg/storage/session_repo.go:48-504 | the same for one step, batches and refused rows included |
| SessionStore.PruneIsFifo | pkg/storage/session_repo.go:213-247 | min(before, ceiling) plain rows stay, none deleted is newer than one kept, and favourites and other sessions are untouched |
| SessionStore.OldestExist | pkg/storage/session_repo.go:228-236 | a set of oldest rows of the size asked for always exists |
| SessionStore.DriftExactly | pkg/storage/session_repo.go:112-504 | what each step adds to the difference between a session's counter and its rows, exactly |
| SessionStore.StepExactIff | pkg/storage/session_repo.go:250-330 | from exact counters a step leaves them exact if and only if it deletes no row by DeleteFavorite and saves no batch with nil entries |
| SessionStore.RunStaysExact | pkg/storage/session_repo.go:112-504 | over a run without such steps exact counters stay exact |
| SessionStore.CountsNeverShort | pkg/storage/session_repo.go:112-504 | over any run no counter is below its number of rows |
| SessionStore.StepKeepsNames | pkg/storage/session_repo.go:48-108 | creating and renaming keep session names pairwise distinct, and so does every other step |
| SessionStore.TwoChoicesOneName | pkg/storage/session_repo.go:48-108 | two calls that choose a name before either stores it give one name twice; one after the other they do not |
| SessionStore.EveryRunIsSound | pkg/storage/session_repo.go:48-504 | over every run from a new database names are distinct, every row has its session, and no counter is short |
| SessionRepo.Repository.SaveRequest | pkg/storage/session_repo.go:112-209 | a row and its count together, or neither when a key refuses it |
| SessionRepo.Repository.SaveRequestsBatch | pkg/storage/session_repo.go:250-330 | all rows of a batch or none, the counter raised by the length of the batch |
| SessionRepo.Repository.SaveResponse | pkg/storage/session_repo.go:333-380 | updates the row that is there and no other; a missing identifier is an error |
| SessionRepo.Repository.EnforceSessionCeiling | pkg/storage/session_repo.go:213-247 | deletes a set of oldest plain rows of exactly the excess and recounts, or does nothing |
| SessionRepo.Repository.SelectOldest | pkg/storage/session_repo.go:228-236 | ordering by start time with a limit selects rows none of which is newer than one left behind |
| SessionRepo.Repository.DeleteSession | pkg/storage/session_repo.go:406-438 | copies the favourites, then deletes the session and just its rows; refuses the two reserved identifiers |
| SessionRepo.Repository.ToggleFavorite | pkg/storage/session_repo.go:441-487 | flag and durable copy change together |
| SessionRepo.Repository.DeleteFavorite | pkg/storage/session_repo.go:491-504 | removes the row and the copy |
| SessionRepo.Repository.GetFavorites | pkg/storage/session_repo.go:602-645 | each identifier once, with the content the tables give it; flagged rows first, newest first, then the other copies, newest first |
| SessionRepo.UnseenMerges | pkg/storage/session_repo.go:627-644 | appending unseen items merges two lists, the first taking precedence |
| SessionRepo.Repository.UniqueSessionName | pkg/storage/session_repo.go:95-108 | the name itself if free, else the first free numbering from 2 |
| SessionRepo.Repository.CreateSession | pkg/storage/session_repo.go:48-70 | a new, empty session under a name no other session has |
| SessionRepo.Repository.RenameSession | pkg/storage/session_repo.go:73-88 | the session gets a name no other session has; empty arguments are errors |
| RulesFile.CrashSafe | internal/services/rules.go:94-142 | if rotation succeeds whenever rules.json exists, after any run of saves, one at a time, with crashes anywhere, torn writes and failing renames, a load returns the last saved configuration or the one just installed, never a torn or older one |
| RulesFile.LoadReturnsLastOrNew | internal/services/rules.go:94-142 | for saves one at a time, the same for any run that avoids the one hazardous step |
| RulesFile.StepKeepsInv | internal/services/rules.go:94-116 | every other step, crash or failure keeps the invariant behind it |
| RulesFile.HazardExactly | internal/services/rules.go:104-113 | at that step the invariant survives if and only if the backup reads as the configuration saved last |
| RulesFile.FailedRotationCanRestoreOlder | internal/services/rules.go:104-113 | a save whose two renames fail brings back an older configuration |
| RulesFile.SafeExactlyFromSound | internal/services/rules.go:94-142 | from a given disk every run with working rotations is safe if and only if no unreadable rules.json on it has a readable backup |
| RulesFile.UnsoundDiskLosesBackup | internal/services/rules.go:103-106 | rotating an unreadable rules.json leaves nothing to load until the new file is in place |
| RulesWriters.SerialSavesAreSafe | internal/services/rules.go:62-142 | with any number of writers on one temporary file, if no save begins before the one before it has ended then a load always returns the configuration of the last final rename that succeeded |
| RulesWriters.SerialStep | internal/services/rules.go:94-116 | an event of a lone save on shared files is the same event of that save by itself, so the invariant of one save is kept |
| RulesWriters.OverlapLosesSave | internal/services/rules.go:62-116 | from every state of a safe run in which a save is in progress that can still write, rename or restore, a second save of another configuration, long enough to cover the first, can end with the disk not holding the last configuration renamed into place, without a crash or a failed rotation |
| RulesWriters.SpentSaveIsHarmless | internal/services/rules.go:108-112 | where the first save only has a restore left and there is no backup, a second one is safe in every continuation up to a third |
| RulesWriters.TornSaveIsLost | internal/services/rules.go:62-116 | the witness with a crash: the emptied temporary file is renamed into place and reported as saved, and a load returns the older configuration |
| RulesFile.RulesDir.AtomicWriteRulesFile | internal/services/rules.go:94-116 | the code's file operations, each with its outcome, are a run of the steps; and what each of the three files holds afterwards, outcome by outcome |
| RulesFile.RulesDir.LoadRulesFile | internal/services/rules.go:120-142 | rules.json, or the backup when it is missing or does not parse |
| SseRelay.StreamSSEResponse | pkg/proxy/sse.go:46-96 | the line loop writes the body in chunks, one a line, and dispatches one event for each closed block that has any |
| SseRelay.ClientReadsTheBody | pkg/proxy/sse.go:46-62 | by the chunk grammar the bytes sent are the body exactly, in non-empty chunks and one last of size zero |
| SseRelay.ChunkReads | pkg/proxy/sse.go:60-61 | a chunk is read back as its data, whatever the data contains |
| SseRelay.HexRoundTrip | pkg/proxy/sse.go:60 | a chunk size is read back from its hexadecimal digits |
| SseRelay.PartsAreBody | pkg/proxy/sse.go:46-61 | the lines and the partial line at the end are the body, none of them empty |
| SseRelay.SentIsCollected | pkg/proxy/sse.go:64-96 | any run of events, printed with LF or CRLF, is collected as just those events in order, each with its name and its lines of data |
| SseRelay.PartsAreLines | pkg/proxy/sse.go:46-61 | every chunk is one line, with its newline, but for a partial line at the end |
| SseRelay.HexIsPlain | pkg/proxy/sse.go:60 | chunk sizes are in lower case, without a zero in front |
| SseRelay.JoinedLines | pkg/proxy/sse.go:86-89 | lines of data are joined by newlines |
| SseRelay.DataLineBare | pkg/proxy/sse.go:82-85 | the space after the colon is optional |
| SseRelay.TakeLine | pkg/proxy/sse.go:65-95 | a blank line dispatches the block's event and starts afresh; any other line is added to its own block |
| SseRelay.Accumulate | pkg/proxy/sse.go:79-95 | the collected event is the last event name and the joined data of the block's lines |
| SseRelay.DataAppend | pkg/proxy/sse.go:81-89 | adding data lines one by one joins them with newlines after the leading empty ones are dropped |
| EcbPadding.DecryptInvertsEncrypt | app_toolbox.go:181-189 | for any block permutation, what the toolbox encrypts the interceptor decrypts to the same plaintext if and only if the key is not 24 bytes long |
| EcbPadding.ToolboxUndoesItself | app_toolbox.go:231-245 | the toolbox undoes its own encryption for every key size, and agrees with the interceptor wherever that succeeds |
| EcbPadding.UnpadInvertsPad | pkg/interceptor/crypto.go:259-274 | on whole blocks unpadding gives a plaintext exactly when the data is that plaintext padded |
| EcbPadding.Pkcs7Unpad | pkg/interceptor/crypto.go:259-274 | succeeds exactly on data that ends in n bytes of n, for n from 1 to 16, and removes them |
| EcbPadding.LenientAgreesWithStrict | app_toolbox.go:239-244 | the toolbox's unpadding gives the same wherever the strict one succeeds, and cuts exactly when the last byte could be a length |
| EcbPadding.EncryptedExactly | app_toolbox.go:137-140 | keys of 16, 24 and 32 bytes are taken, and no others |
| EcbPadding.EncryptedBlocks | app_toolbox.go:181-189 | the ciphertext is each block of the plaintext and its padding, encrypted, in its own place |
| EcbPadding.MapBlocksAt | pkg/interceptor/crypto.go:247-250 | every block becomes what the cipher makes of it, in its own place |
| EcbPadding.PaddedExactly | pkg/interceptor/crypto.go:259-274 | padding is n bytes that each hold n, for n from 1 to 16 |
| EcbPadding.DecryptedExactly | pkg/interceptor/crypto.go:198-252 | which error each input gets, and that a plaintext is returned exactly when the decrypted blocks are it and its padding |
| EcbPadding.ToolboxDecryptedExactly | app_toolbox.go:231-245 | which inputs the toolbox refuses; it never refuses a padding |
| EcbPadding.MapBlocksInverse | pkg/interceptor/crypto.go:247-250 | decrypting block by block undoes encrypting block by block |
| EcbPadding.CryptBlocks | pkg/interceptor/crypto.go:247-250 | the loop over the buffer applies the cipher to each block in its place |
| EcbPadding.ToolboxEncrypt | app_toolbox.go:136-189 | checks the key, pads and encrypts |
| EcbPadding.ToolboxDecrypt | app_toolbox.go:231-245 | checks the key and the length, decrypts and unpads leniently |
| EcbPadding.DecryptData | pkg/interceptor/crypto.go:198-252 | the two key checks, the length check, decryption and strict unpadding |
| Exports.ExportToCSV | pkg/storage/har.go:273-300 | writes the header and one line a request |
| Exports.ExportReadsBack | pkg/storage/har.go:260-300 | by the fields and records of RFC 4180, with newlines as well as CRLF for line ends, the export reads as one header and, for each request in order, a record of ten fields; with CRLF alone no export can be read |
| Exports.RecordInColumns | pkg/storage/har.go:277-297 | which field of a request stands in which column, and what stands there without a response |
| Exports.RecordsInOrder | pkg/storage/har.go:273-300 | one record a request, in order, under the ten titles |
| Exports.GuardedExactly | pkg/storage/har.go:263-268 | a text that begins like a formula gets a sign in front, any other stays as it is; no cell reads back as a formula |
| Exports.IntTextReadsBack | pkg/storage/har.go:284-296 | a number is its sign and its numeral |
| Exports.FieldReads | pkg/storage/har.go:260-270 | a field reads back as its original, guarded against formulas, whatever characters it holds |
| Exports.LineReads | pkg/storage/har.go:284-296 | a line reads back as its cells where newlines end lines, and not at all where only CRLF does |
| Exports.ShellReadsBack | pkg/storage/har.go:302-305 | a quoted value is lexed as a single word, which is the value |

## Left out

- SessionStore.CountsNeverShort: speaks of runs of whole repository calls; the separate statements inside EnforceSessionCeiling are one step here, so what another call does between its count and its update is not covered.
- SessionStore.EveryRunIsSound: speaks of runs of whole repository calls; calls whose statements interleave are left to SessionStore.TwoChoicesOneName.
- SessionRepo.Repository.CreateSession: the free-name query and the insert are one step here and two statements in the code.
- SessionRepo.Repository.RenameSession: the free-name query and the update are one step here and two statements in the code.
- RulesFile.CrashSafe: one save at a time; RulesWriters speaks of several.
- RulesFile.LoadReturnsLastOrNew: one save at a time; RulesWriters speaks of several.
- RulesFile.RulesDir.LoadRulesFile: the code decodes the backup over what a primary that failed on a type, not on its syntax, left behind in the same value; here a configuration that fails to parse leaves nothing.
- RuleIds.EnsureUniqueIDs: the identifiers a random generator gives are a parameter that is assumed not to be empty, not to be unused.
- Breakpoint.RequestBreakpointInterceptor.Arrive: notifying the interface of a pause is not modelled.
- SseRelay.TakeLine: leaves out the id and retry fields, which the code carries over from blocks it does not dispatch, and the identifier and time of a dispatched event.
- HostFilter.Filter.AddWhitelist: appending always takes a new array, so spare capacity of a caller's slice that append would write into is not modelled.
- HostFilter.Filter.AddBlacklist: the same.
- MobileSocket.ReadLoop: a message handed on is recorded, not executed.
- Failing writes to a client, a server or a listener: the relays are modelled up to the end of the bytes they read, with every write succeeding.
- Floating-point readings of fixed-width fields: the model keeps the number.
- CBC, CTR and GCM, and the Base64 and hexadecimal text around ciphertexts.
- User-written regular expressions: the matcher covers the syntax that the glob compilers emit.
- Invalid UTF-8 inside patterns and hosts; strings are sequences of characters, with case mapping by character.
- File sizes, process columns and rows a scan cannot read in the session tables, and errors of the database other than key violations.
- Durability of file contents: a write that returned is there after a crash.
- Rule kinds, schema versions and JSON in the rules file: a configuration is opaque, and rendering then parsing it gives it back.
- HAR import and export, and the layout of the cURL script around its quoted words.
- Sockets, TLS, certificates, launchers, system settings and the user interface.
