# BLE JSON-RPC firmware: a verified model of its core

The firmware runs on an ESP32 and serves JSON-RPC requests over BLE. Two TypeScript clients talk to it: a browser check app and a command-line tool. This project models, in Dafny, the logic the firmware and the clients share, and proves what it promises.

- **Chunk transport.** Every BLE write is a chunk: a 4-byte header followed by a payload. The header holds a message id, a 16-bit sequence number (low byte first) and flags (FINAL = 1, MISSED = 2, OVERFLOW = 4).
  - The firmware's `BleChunker` reassembles inbound chunks into one request. It hands the request to the message handler and splits the reply into outbound chunks.
  - A client's `BleClientChunker` splits requests and merges replies (modules `BleChunker`, `CheckAppChunker`, `CliToolsChunker`, `Payloads`).
  - `ChunkRoundTrip` connects the two sides.
- **JSON-RPC dispatcher.** A registry maps a method name to a wrapped handler. `dispatch` reports a parse error, an unknown method, an argument type mismatch, a handler's exception or its result (module `JsonRpc`).
- **AsyncPreference.** A value persisted by a writer task. It uses an even/odd version counter, a snapshot that the writer accepts only if the version did not move during the copy, a one-time lazy load, and serializers into a key-value store (module `AsyncPreference`).
- **BleAuthStore.** A fixed table of paired clients with last-seen timestamps, guarded by the same version protocol (module `BleAuthStore`).
- **Ring logger utilities.**
  - The `{}` formatter writes into a bounded char buffer (`RingLoggerFormatter`, with `Decimal` for integer text).
  - The label-list matcher and the argument union are in `RingLoggerHelpers`.
  - The compile-time `should_log` gate is in `RingLogger`.

**How the model is built.**
- Code that updates fields in place is a `class`: the reassembler, the client chunkers, the dispatcher, the preference and its writer, the key-value store, and the auth store. Each method is proved against a function of the old state, for example `State() == Step(Cfg(), onMessage, old(State()), chunk).state`.
- Loops stay loops with invariants:
  - the client split loops and `mergeUint8Arrays`;
  - the auth store's searches and clamping loop;
  - the formatter's print loop;
  - the writer's loop over its preferences.
- Pure code becomes functions and lemmas.
- Integers are unbounded. 8-, 16- and 32-bit wrap-around is written out wherever the source relies on it:
  - the sequence number modulo 2^16;
  - the message id counter modulo 256;
  - the version counters and timestamp sums modulo 2^32.

## Model

| member | source | states |
|---|---|---|
| BleChunker.HeadBytes | src/ble_chunker.hpp:36-41 | The four bytes `fillTo` writes decode back to the same header; byte 0 is the id, byte 1 the low and byte 2 the high byte of the sequence number, byte 3 the flags |
| BleChunker.HeadBytesOfDecode | src/ble_chunker.hpp:28-41 | Re-encoding the header decoded from any chunk gives its first four bytes back (the other direction of the round trip) |
| BleChunker.DecodeFramed | src/ble_chunker.hpp:28-32 | A header followed by any payload decodes to that header, and the bytes after the header are exactly the payload |
| BleChunker.FillTo | src/ble_chunker.hpp:36-41 | Writing a header into a buffer sets its first four bytes to the header's bytes and leaves every later byte unchanged |
| BleChunker.FrameChunks | src/ble_chunker.hpp:147-163 | Framing gives one chunk per payload piece |
| BleChunker.Bodies | src/ble_chunker.hpp:94-97 | Stripping headers gives one body per chunk, and each chunk is its header followed by its body |
| BleChunker.AcceptFinal | src/ble_chunker.hpp:99-108 | An accepted FINAL chunk hands the handler the assembled message plus this payload, sets `skipTail`, and makes the response the split of the handler's reply |
| BleChunker.Chunker.constructor | src/ble_chunker.hpp:49-53 | A new reassembler keeps both size limits, has no message handler, and starts in the initial state: first message pending, nothing assembled, nothing queued |
| BleChunker.Chunker.ConsumeChunk | src/ble_chunker.hpp:55-109 | One call moves the fields exactly as the step function does and keeps the reassembler's invariant |
| BleChunker.Chunker.AcceptChunk | src/ble_chunker.hpp:76-108 | After the id is adopted: the size check, then the sequence check, then the append and the final delivery, as the step function states them |
| BleChunker.Chunker.Reject | src/ble_chunker.hpp:80-83 | An error suppresses the rest of the message and queues exactly one error chunk for the current id; no other field changes |
| BleChunker.Chunker.ResetState | src/ble_chunker.hpp:124-131 | Reset empties the assembled message and the response, zeroes size and expected sequence, and clears `skipTail` and `firstMessage` |
| BleChunker.Chunker.SendErrorResponse | src/ble_chunker.hpp:168-174 | The response becomes the single header-only chunk carrying the current id, sequence 0 and the error flag with FINAL |
| BleChunker.Chunker.BuildChunk | src/ble_chunker.hpp:150-160 | An outbound chunk is the header's four bytes followed by the data |
| BleChunker.Chunker.SplitMessageToChunks | src/ble_chunker.hpp:133-166 | The loop produces exactly the reference split of the message under the current id with pieces of `maxChunkSize - 4` bytes |
| BleChunkerProofs.ShortChunkIgnored | src/ble_chunker.hpp:56-59 | A chunk shorter than 4 bytes changes no field, leaves the response untouched and delivers nothing |
| BleChunkerProofs.TailSuppressed | src/ble_chunker.hpp:63-67 | While `skipTail` is set, a chunk with the current id changes nothing and delivers nothing |
| BleChunkerProofs.NewMessageResets | src/ble_chunker.hpp:69-74 | The first chunk ever, or a new id, is judged against a reset state under the new id |
| BleChunkerProofs.OverflowRejected | src/ble_chunker.hpp:76-84 | A payload that would exceed `maxMessageSize` sets `skipTail` and queues exactly [id, 0, 0, OVERFLOW or FINAL]; this check comes before the sequence check and nothing is delivered |
| BleChunkerProofs.MissedRejected | src/ble_chunker.hpp:86-92 | A payload that fits but carries the wrong sequence number sets `skipTail` and queues exactly [id, 0, 0, MISSED or FINAL]; the handler is not called |
| BleChunkerProofs.Accepted | src/ble_chunker.hpp:94-108 | An accepted chunk appends exactly its payload, advances the expected sequence modulo 2^16, and only a FINAL one sets `skipTail` and delivers |
| BleChunkerProofs.StepPreservesInv | src/ble_chunker.hpp:76-97 | Every step keeps `messageSize` equal to the assembled length and at most `maxMessageSize` |
| BleChunkerProofs.DeliveryOnlyOnFinal | src/ble_chunker.hpp:99-108 | The handler is called only for an accepted FINAL chunk, and it receives the state's assembled message |
| BleChunkerProofs.SplitMessageShape | src/ble_chunker.hpp:133-166 | An empty reply gives one header-only FINAL chunk with sequence 0. Otherwise there are ceil(n / chunkSize) chunks; chunk j has sequence j mod 2^16 and at most chunkSize payload bytes; only the last is FINAL; the bodies concatenate to the message |
| BleChunkerProofs.ErrorChunkBytes | src/ble_chunker.hpp:168-174 | The error chunk is the bytes [id, 0, 0, flag or FINAL], and its FINAL bit is set |
| Bytes.Add32 | src/ble_auth_store.hpp:53 | 32-bit unsigned addition: the exact sum below 2^32, the sum less 2^32 otherwise |
| Bytes.FlattenLength | support/ble_check_app/src/BleClientChunker.ts:46-50 | The concatenation's length is the sum of the parts' lengths |
| Bytes.FlattenAppend | support/ble_check_app/src/BleClientChunker.ts:46-50 | Concatenating two lists of parts is concatenating their concatenations |
| Payloads.PiecesFlatten | src/ble_chunker.hpp:147-163 | The pieces cut by the split loop concatenate back to the message |
| Payloads.PiecesCount | src/ble_chunker.hpp:147-163 | There are ceil(n / chunkSize) pieces |
| Payloads.PiecesShape | src/ble_chunker.hpp:147-163 | Every piece is non-empty and at most chunkSize long, and all but the last are exactly chunkSize long |
| Payloads.PiecesAt | support/ble_check_app/src/BleClientChunker.ts:73-78 | The piece at offset i is the bytes from i up to the smaller of i + chunkSize and the end, and the later pieces are the pieces of the rest |
| Decimal.DigitValue | src/ring_logger/ring_logger_formatter.hpp:73-78 | A digit character's value is below 10, and writing that value as a digit gives the character back |
| Decimal.NatDigits | src/ring_logger/ring_logger_formatter.hpp:73-78 | The decimal text of a natural number has at least one character and consists only of digits |
| Decimal.ParseNatDigits | src/ring_logger/ring_logger_formatter.hpp:73-78 | Reading the digits of n back gives n |
| Decimal.NoLeadingZero | src/ring_logger/ring_logger_formatter.hpp:73-78 | Only zero is written with a leading '0' |
| Decimal.DecimalRoundTrip | src/ring_logger/ring_logger_formatter.hpp:73-78 | Reading back the decimal text of any integer, negative ones included, gives that integer |
| CheckAppChunker.FromBuffer | support/ble_check_app/src/BleClientChunker.ts:20-22 | Decoding any four bytes gives an id and flags below 256 and a sequence number below 2^16, low byte first |
| CheckAppChunker.ToBuffer | support/ble_check_app/src/BleClientChunker.ts:24-31 | The buffer filled field by field holds the header's bytes, and for in-range fields `fromBuffer` returns the same header |
| CheckAppChunker.FromEncode | support/ble_check_app/src/BleClientChunker.ts:20-31 | `fromBuffer(toBuffer(h)) == h` for id and flags below 256 and sequence below 2^16 |
| CheckAppChunker.EncodeFrom | support/ble_check_app/src/BleClientChunker.ts:20-31 | `toBuffer(fromBuffer(c))` is the first four bytes of c |
| CheckAppChunker.EncodeMatchesFirmware | support/ble_check_app/src/BleClientChunker.ts:24-31 | The client's header bytes are the firmware's `fillTo` bytes for the same header, with the sequence number taken modulo 2^16 |
| CheckAppChunker.DataChunkSplits | support/ble_check_app/src/BleClientChunker.ts:33-35 | A chunk that is not "no data" (at least 4 bytes) is its decoded header's bytes followed by its payload |
| CheckAppChunker.IsLastChunkIsFinal | support/ble_check_app/src/BleClientChunker.ts:157-160 | `isLastChunk` holds exactly when the firmware's FINAL test holds on the same bytes |
| CheckAppChunker.MergeUint8Arrays | support/ble_check_app/src/BleClientChunker.ts:46-50 | The merged buffer is the in-order concatenation of the inputs, and its length is the sum of their lengths |
| CheckAppChunker.ClientSplitIsFirmwareFraming | support/ble_check_app/src/BleClientChunker.ts:65-82 | The client frames a message exactly as the firmware frames its replies; for a nonempty message the two splits are the same list |
| CheckAppChunker.ClientSplitShape | support/ble_check_app/src/BleClientChunker.ts:65-82 | An empty message gives no chunks at all. Otherwise there are ceil(n / chunkSize) chunks, chunk j reads back as (id, j mod 2^16), `isLastChunk` holds exactly on the last, and the bodies concatenate to the message |
| CheckAppChunker.BleChunkerShape | src/ble_chunker.hpp:147-163 | For a nonempty message the firmware's split has ceil(n / chunkSize) chunks, each being header (id, j mod 2^16, FINAL on the last) followed by piece j |
| CheckAppChunker.FrameChunk | support/ble_check_app/src/BleClientChunker.ts:76-77 | One round builds the header bytes with FINAL exactly on the last chunk, then the payload |
| CheckAppChunker.SplitRound | support/ble_check_app/src/BleClientChunker.ts:73-78 | One loop round appends chunk k of the split and moves the offset to the start of piece k + 1 |
| CheckAppChunker.SplitLoop | support/ble_check_app/src/BleClientChunker.ts:73-78 | The loop over offsets produces exactly the reference split |
| CheckAppChunker.ClientChunker.constructor | support/ble_check_app/src/BleClientChunker.ts:58-63 | A new client keeps its blob size, and its id counter starts at 0 |
| CheckAppChunker.ClientChunker.SplitIntoChunks | support/ble_check_app/src/BleClientChunker.ts:65-82 | Each call advances the id counter by 1 modulo 256 and returns the split of the message under the new id with pieces of `maxBlobSize - 4` bytes |
| CliToolsChunker.FromBuffer | support/ble_cli_tools/src/BleClientChunker.ts:16-18 | Decoding gives in-range fields, the sequence number read high byte first |
| CliToolsChunker.ToBuffer | support/ble_cli_tools/src/BleClientChunker.ts:20-27 | The buffer holds id, sequence high byte, sequence low byte, flags, and for in-range fields `fromBuffer` returns the same header |
| CliToolsChunker.FromEncode | support/ble_cli_tools/src/BleClientChunker.ts:16-27 | This client decodes its own headers correctly |
| CliToolsChunker.EncodeIsBigEndian | support/ble_cli_tools/src/BleClientChunker.ts:23-24 | Byte 1 holds the high byte of the sequence number and byte 2 the low byte |
| CliToolsChunker.Swap16 | support/ble_cli_tools/src/BleClientChunker.ts:23-24 | The byte swap puts the high byte low and the low byte high |
| CliToolsChunker.FirmwareReadsSwapped | src/ble_chunker.hpp:28-32 | The firmware decodes this client's header with the sequence number byte-swapped; id and flags are read correctly |
| CliToolsChunker.SwapAgreesIffBytesEqual | support/ble_cli_tools/src/BleClientChunker.ts:20-27 | Firmware and client agree on a sequence number exactly when its two bytes are equal; below 256 that is 0 alone |
| CliToolsChunker.IsLastChunkAgrees | support/ble_cli_tools/src/BleClientChunker.ts:128-131 | `isLastChunk` is bit 0 of byte 3, the same test as the check app's and the firmware's FINAL test |
| CliToolsChunker.CliSplitShape | support/ble_cli_tools/src/BleClientChunker.ts:57-73 | An empty message gives no chunks. Otherwise there are ceil(n / chunkSize) chunks, each longer than the header and at most header plus chunkSize; only the last is last; the bodies concatenate to the message |
| CliToolsChunker.CliChunks | support/ble_cli_tools/src/BleClientChunker.ts:65-70 | Chunk j is piece j behind a header that this client reads back as (id, j mod 2^16, FINAL on the last) |
| CliToolsChunker.Framed | support/ble_cli_tools/src/BleClientChunker.ts:20-27 | A header written by this client, followed by a payload, reads back as that header with the sequence number modulo 2^16 |
| CliToolsChunker.FrameChunk | support/ble_cli_tools/src/BleClientChunker.ts:68-69 | One round builds this client's header bytes, FINAL exactly on the last chunk, then the payload |
| CliToolsChunker.SplitRound | support/ble_cli_tools/src/BleClientChunker.ts:65-70 | One loop round appends chunk k and moves to piece k + 1 |
| CliToolsChunker.SplitLoop | support/ble_cli_tools/src/BleClientChunker.ts:65-70 | The loop produces exactly the reference split |
| CliToolsChunker.ClientChunker.constructor | support/ble_cli_tools/src/BleClientChunker.ts:50-55 | A new client keeps its blob size, and its id counter starts at 0 |
| CliToolsChunker.ClientChunker.SplitIntoChunks | support/ble_cli_tools/src/BleClientChunker.ts:57-73 | Each call advances the id counter by 1 modulo 256 and returns the split under the new id |
| ChunkRoundTrip.StepReceivingMore | src/ble_chunker.hpp:86-97 | A non-final chunk with the expected sequence and a payload that fits is appended, and the next sequence number is expected |
| ChunkRoundTrip.StepReceivingLast | src/ble_chunker.hpp:99-108 | The FINAL chunk under the same conditions completes the message and delivers it once |
| ChunkRoundTrip.FeedRest | src/ble_chunker.hpp:69-108 | Feeding the rest of a framed message, from any point partway through, delivers it exactly once and completes it |
| ChunkRoundTrip.FeedFrames | src/ble_chunker.hpp:69-108 | A framed nonempty message that fits, fed to a fresh reassembler or one on another id, is delivered exactly once |
| ChunkRoundTrip.CheckAppRoundTrip | support/ble_check_app/src/BleClientChunker.ts:65-82 | The check app's chunks of a nonempty message within `maxMessageSize`, fed in order to a fresh reassembler or one on another id, deliver exactly that message, once |
| ChunkRoundTrip.ReplyReassembles | src/ble_chunker.hpp:133-166 | Every reply chunk holds a header, and merging the chunks with their headers removed gives the reply back |
| ChunkRoundTrip.FeedSuppressed | src/ble_chunker.hpp:63-67 | Once a message's tail is suppressed, any run of further chunks with its id changes nothing and delivers nothing |
| ChunkRoundTrip.CliChunkDecodes | support/ble_cli_tools/src/BleClientChunker.ts:20-27 | The firmware decodes a command-line chunk as its payload behind a header whose sequence number is byte-swapped |
| ChunkRoundTrip.StepOpening | src/ble_chunker.hpp:69-97 | The first chunk of a new message, with sequence 0 and not FINAL, is taken in |
| ChunkRoundTrip.StepOutOfSequence | src/ble_chunker.hpp:86-92 | A chunk of the current message with the wrong sequence number, and room for its payload, is answered with MISSED and suppresses the rest |
| ChunkRoundTrip.CliMultiChunkRejected | support/ble_cli_tools/src/BleClientChunker.ts:23-24 | A command-line message longer than one chunk delivers nothing: the reassembler ends suppressed with [id, 0, 0, MISSED or FINAL] queued |
| ChunkRoundTrip.FeedRejected | src/ble_chunker.hpp:63-92 | A run whose first chunk is taken in and whose second is out of sequence ends suppressed with MISSED queued and nothing delivered |
| ChunkRoundTrip.TwoByteChunksExample | support/ble_cli_tools/src/BleClientChunker.ts:57-73 | For the message [7, 8] with blob size 5, the command-line tool and the check app (support/ble_check_app/src/BleClientChunker.ts lines 65-82) both write [1,0,0,0,7] first; then the check app writes [1,1,0,1,8] and the command-line tool [1,0,1,1,8] |
| ChunkRoundTrip.TwoByteFeedExample | src/ble_chunker.hpp:86-92 | Fed to a fresh reassembler, the check app's chunks deliver [7, 8]; the command-line chunks deliver nothing and draw [1, 0, 0, 3] |
| JsonRpc.IsJsonTypeKinds | src/json_rpc_dispatcher.hpp:116-150 | The type test is kind-exact: null passes no type; integer types take only integers; the string type only strings; the boolean type only booleans; the float types every number |
| JsonRpc.IntegerRangesNest | src/json_rpc_dispatcher.hpp:116-138 | A value accepted by a narrow integer type is accepted by every wider one of the same signedness, and an 8-bit unsigned value also by int16 |
| JsonRpc.IsJsonTypeExamples | test/test_json_rpc_dispatcher/test_json_rpc_dispatcher.cpp:70-142 | 1 and 2 are int8; 512, 2.5, a string and null are not; an integer or null is not a string |
| JsonRpc.CheckArgumentTypesAll | src/json_rpc_dispatcher.hpp:152-165 | The check passes exactly when every declared type accepts its argument, a missing argument reading as null; arguments beyond the declared ones are never looked at |
| JsonRpc.AsKeepsType | src/json_rpc_dispatcher.hpp:192 | Converting an argument that passed the check keeps it of its declared type, and changes only numbers read as floats |
| JsonRpc.InvokeBinary | src/json_rpc_dispatcher.hpp:187-198 | A two-parameter handler is called exactly when both arguments pass. On a mismatch the response is "Argument type mismatch", whatever the handler |
| JsonRpc.InvokeNullaryIgnoresArgs | src/json_rpc_dispatcher.hpp:209-216 | A parameterless handler is called whatever the argument array holds, and its outcome is the response |
| JsonRpc.ThrownMessageReported | src/json_rpc_dispatcher.hpp:195-197 | A handler's exception becomes ok=false with the exception's message as result |
| JsonRpc.Dispatcher.constructor | src/json_rpc_dispatcher.hpp:170 | A new dispatcher has no methods |
| JsonRpc.Dispatcher.AddMethod0 | src/json_rpc_dispatcher.hpp:202-217 | Registering a parameterless handler sets or replaces that name's entry, and every other entry is unchanged |
| JsonRpc.Dispatcher.AddMethod2 | src/json_rpc_dispatcher.hpp:174-199 | Registering a two-parameter handler sets or replaces that name's entry, and every other entry is unchanged |
| JsonRpc.Dispatcher.Dispatch | src/json_rpc_dispatcher.hpp:219-236 | A parse error gives ok=false with the parser's text; an unknown name gives ok=false "Method not found"; a known name gives what its wrapper returns for the arguments |
| JsonRpc.DispatchAfterAdd | src/json_rpc_dispatcher.hpp:187 | After `addMethod(name, m)`, a call to that name goes to m (the last registration wins), and calls to every other name answer as before |
| JsonRpc.DispatchOkOnlyOnReturn | src/json_rpc_dispatcher.hpp:219-236 | ok=true is reported only for a registered method whose arguments passed and whose handler returned |
| JsonRpc.CheckTwo | src/json_rpc_dispatcher.hpp:157-160 | The two-type check is the conjunction of the tests of argument 0 and argument 1 |
| JsonRpc.TestRegistryEntries | test/test_json_rpc_dispatcher/test_json_rpc_dispatcher.cpp:23-44 | The test registry holds add_8bits (int8, int8), concat (string, string) and noparams |
| JsonRpc.DispatchSuccessExamples | test/test_json_rpc_dispatcher/test_json_rpc_dispatcher.cpp:23-67 | add_8bits(1, 2) gives 3; concat gives "hello world"; noparams gives 5 with or without arguments; an unknown name gives "Method not found" |
| JsonRpc.DispatchMismatchExamples | test/test_json_rpc_dispatcher/test_json_rpc_dispatcher.cpp:70-142 | Out-of-range, non-integral, wrongly typed, null and missing arguments all give "Argument type mismatch" |
| AsyncPreference.KVStore.constructor | src/async_preference/async_preference.hpp:10-15 | A new store holds no keys |
| AsyncPreference.KVStore.Length | src/async_preference/async_preference.hpp:14 | The length is 0 exactly when nothing (or nothing but an empty value) is stored |
| AsyncPreference.KVStore.Write | src/async_preference/async_preference.hpp:12 | Writing sets that (namespace, key) entry to the bytes and changes no other entry |
| AsyncPreference.KVStore.Read | src/async_preference/async_preference.hpp:13 | Reading fills the buffer with the first bytes of the stored value |
| AsyncPreference.Default | src/async_preference/async_preference.hpp:105 | The default value `T()` is a valid image of the type |
| AsyncPreference.Loaded | src/async_preference/async_preference.hpp:26-33 | After a load the value is either the stored bytes or unchanged, and a valid value stays valid |
| AsyncPreference.Save | src/async_preference/async_preference.hpp:22-24 | Saving writes the value's bytes under (namespace, key) and changes no other entry |
| AsyncPreference.Load | src/async_preference/async_preference.hpp:26-52 | Loading leaves the value unchanged for an absent key or a length that does not suit the type, and otherwise sets it to the stored bytes |
| AsyncPreference.SaveLoadRoundTrip | src/async_preference/async_preference.hpp:22-52 | Loading what was saved gives the value back; for an empty buffer value (stored with length 0, read as absent) the current value stays |
| AsyncPreference.BrokenLengthIgnored | src/async_preference/async_preference.hpp:26-48 | A stored length that does not suit the type (not sizeof(T), or not a multiple of the element size) is ignored |
| AsyncPreference.SetAdvancesVersionByTwo | src/async_preference/async_preference.hpp:114-130 | `set(v)` leaves the value equal to v, advances the version by exactly 2 modulo 2^32 so an even version stays even, disables a later load, and does not touch the snapshot |
| AsyncPreference.MakeSnapshotAccepts | src/async_preference/async_preference.hpp:141-153 | With no update in between, `makeSnapshot` accepts exactly when the version is even and not the one accepted last; on acceptance the snapshot is the value and the accepted version is recorded |
| AsyncPreference.IdleTickStoresNothing | src/async_preference/async_preference.hpp:136-158 | After a writer tick, the next tick with no update in between stores nothing |
| AsyncPreference.SetThenTickStores | src/async_preference/async_preference.hpp:114-174 | A completed `set` is stored by the next writer tick, unless 2^32 updates brought the version back to the accepted one |
| AsyncPreference.PreloadOnce | src/async_preference/async_preference.hpp:189-210 | `preload` loads at most once; an absent key leaves the value and does not count as a load |
| AsyncPreference.UpdateBeforeGetDisablesLoad | src/async_preference/async_preference.hpp:122-127 | An update begun before the first `get` disables loading for good |
| AsyncPreference.Bumps | src/async_preference/async_preference.hpp:128-130 | The number of version increments among the events is at most the number of events |
| AsyncPreference.RunFields | src/async_preference/async_preference.hpp:122-130 | Updates move only the version, by the number of begins and ends modulo 2^32, and the value |
| AsyncPreference.NoBumpNoEvents | src/async_preference/async_preference.hpp:122-130 | Outside an update, a run that does not move the version is empty |
| AsyncPreference.AcceptedSnapshotIsStable | src/async_preference/async_preference.hpp:141-153 | For any updates interleaved before and after the copy (fewer than 2^32), a snapshot the writer accepts is the value as it stood at the even version it loaded, and no update happened during the copy |
| AsyncPreference.DisciplinedSplit | src/async_preference/async_preference.hpp:122-130 | A well-formed run of updates splits into two well-formed runs, and its increments add up |
| AsyncPreference.Preference.constructor | src/async_preference/async_preference.hpp:105-107 | A new preference holds the initial value, version and accepted version 0, no snapshot, not yet loaded |
| AsyncPreference.Preference.Get | src/async_preference/async_preference.hpp:109-112 | `get` performs the one-time load and returns the current value |
| AsyncPreference.Preference.Preload | src/async_preference/async_preference.hpp:189-210 | `preload` changes the fields exactly as the one-time load states |
| AsyncPreference.Preference.Set | src/async_preference/async_preference.hpp:114-118 | `set` changes the fields exactly as begin, assign and end do |
| AsyncPreference.Preference.ValueUpdateBegin | src/async_preference/async_preference.hpp:122-129 | Begin marks the value as loaded and advances the version by one |
| AsyncPreference.Preference.ValueUpdateEnd | src/async_preference/async_preference.hpp:130 | End advances the version by one |
| AsyncPreference.Preference.Tick | src/async_preference/async_preference.hpp:136-139 | A tick is a snapshot followed by a save, on the fields and on the store |
| AsyncPreference.Preference.MakeSnapshot | src/async_preference/async_preference.hpp:141-153 | Load the version, copy, check: with no interference this is the snapshot step |
| AsyncPreference.Preference.LoadVersion | src/async_preference/async_preference.hpp:142 | Returns the current version |
| AsyncPreference.Preference.CopySnapshot | src/async_preference/async_preference.hpp:145-146 | The value is copied only when the loaded version is even and new |
| AsyncPreference.Preference.CheckSnapshot | src/async_preference/async_preference.hpp:148-151 | The copy is accepted only if the version still equals the loaded one |
| AsyncPreference.Preference.SaveSnapshot | src/async_preference/async_preference.hpp:155-174 | The store is written only when there is a snapshot, and the snapshot flag is then cleared |
| AsyncPreference.ThrottleFiresIff | src/async_preference/async_preference.hpp:84-90 | Without a clock every call runs. With one, a clock behind the last run restarts the period; a run happens exactly when the 32-bit difference reaches the period, and records the time |
| AsyncPreference.ThrottleAfterRun | src/async_preference/async_preference.hpp:84-90 | After a run at t, a tick at t + d (without wrap) runs exactly when d reaches the period |
| AsyncPreference.Writer.constructor | src/async_preference/async_preference.hpp:79-80 | A new writer has its period and clock, last run time 0, and no preferences |
| AsyncPreference.Writer.Add | src/async_preference/async_preference.hpp:82 | Adding appends the preference, changes nothing else, and keeps the writer valid: distinct preferences on distinct store keys |
| AsyncPreference.Writer.Tick | src/async_preference/async_preference.hpp:84-93 | The last run time follows the throttle, and a throttled call changes no preference and no store. A call that runs ticks every preference. Each one's fields become the snapshot-then-save state of its old fields, so none keeps a snapshot and each even version becomes its accepted one. Its key holds the snapshot it saved, or else the old bytes. Every other entry of every store is unchanged |
| AsyncPreference.Writer.TickAll | src/async_preference/async_preference.hpp:92 | The loop over the registered preferences ticks each of them as `Preference::tick` states, and changes no store entry outside their keys |
| AsyncPreference.Writer.TickAt | src/async_preference/async_preference.hpp:92 | Ticking one preference moves only its fields and its own key: every other preference and every other store entry is unchanged |
| AsyncPreference.MakeSnapshotCatchesUp | src/async_preference/async_preference.hpp:136-174 | After a tick without interference no snapshot is pending, and an even version is the accepted one |
| AsyncPreference.TickStoresNewStableValue | src/async_preference/async_preference.hpp:136-174 | A tick stores the current value exactly when its version is even and not yet accepted. Otherwise the key keeps its bytes, or receives a snapshot accepted earlier and not saved |
| BleAuthStore.FindClient | src/ble_auth_store.hpp:42-45 | The search returns the first slot holding the id, or the end when no slot does |
| BleAuthStore.FindClientIffHas | src/ble_auth_store.hpp:22-45 | The search finds a slot exactly when `has` holds |
| BleAuthStore.FirstMin | src/ble_auth_store.hpp:79 | The first slot with the smallest timestamp |
| BleAuthStore.FirstMinUnique | src/ble_auth_store.hpp:79 | Only one slot is the first with the smallest timestamp |
| BleAuthStore.CreateSlot | src/ble_auth_store.hpp:74-81 | The slot `create` writes is inside the table |
| BleAuthStore.Clamped | src/ble_auth_store.hpp:56-64 | The clamped table has one timestamp per slot |
| BleAuthStore.ClampedBounds | src/ble_auth_store.hpp:56-64 | After a write the slot holds the new timestamp. Every other slot keeps its value or takes the new one, and none that is nonzero is left more than a day past it |
| BleAuthStore.RefreshWithinADayNotWritten | src/ble_auth_store.hpp:47-51 | A forward move (without wrap) is written exactly when it exceeds a day, and repeating the same timestamp writes nothing |
| BleAuthStore.CreateThenGetSecret | src/ble_auth_store.hpp:72-93 | On any table, after `create(id, s)` the search finds the id in the slot written, and `get_secret` yields s |
| BleAuthStore.CreateKeepsIdsUnique | src/ble_auth_store.hpp:74-88 | On a table where only the zero id repeats, `create` keeps it so: it reuses the id's slot or writes an id held nowhere else |
| BleAuthStore.FindClientAt | src/ble_auth_store.hpp:42-45 | A slot holding the id, with no earlier slot holding it, is the one found |
| BleAuthStore.CreateEvictsOldest | src/ble_auth_store.hpp:78-81 | For an unknown id, `create` overwrites the first slot with the smallest timestamp; on a table whose slot 0 is 0, that is slot 0 |
| BleAuthStore.FreshTableKnowsZeroId | src/ble_auth_store.hpp:13-15 | A fresh table answers `has` for the all-zero id in slot 0, with the all-zero secret |
| BleAuthStore.AuthStore.constructor | src/ble_auth_store.hpp:13-15 | A new store has every slot holding the zero id and secret, every timestamp 0, and every version 0 |
| BleAuthStore.AuthStore.Has | src/ble_auth_store.hpp:22-27 | `has` holds exactly when some slot holds the id |
| BleAuthStore.AuthStore.Find | src/ble_auth_store.hpp:31-33 | The loop returns the first slot holding the id, or the end |
| BleAuthStore.AuthStore.GetSecret | src/ble_auth_store.hpp:29-37 | An unknown id returns false and leaves the output as it was; otherwise the output is the first matching slot's secret |
| BleAuthStore.AuthStore.MinElement | src/ble_auth_store.hpp:79 | The loop returns the first slot with the smallest timestamp |
| BleAuthStore.AuthStore.SetTimestamp | src/ble_auth_store.hpp:39-70 | An unknown id returns false and changes nothing. Otherwise it returns true and writes only when the timestamp is 0, more than a day ahead (32-bit sum) or behind. A write stores the timestamp, clamps the other slots, and adds 2 to the timestamps version only |
| BleAuthStore.AuthStore.Create | src/ble_auth_store.hpp:72-93 | It writes id and secret into the matching slot, or else the first oldest, and zeroes that slot's timestamp; no other slot changes. Both versions advance by 2 and it returns true |
| BleAuthStore.AuthStore.WriterTick | src/ble_auth_store.hpp:107-140 | Each table is persisted, and its version accepted, exactly when the version is even and new; otherwise the stored table and accepted version stay |
| BleAuthStore.Bumps | src/ble_auth_store.hpp:53-91 | The number of version increments among the events is at most the number of events |
| BleAuthStore.RunEventsFields | src/ble_auth_store.hpp:53-91 | Updates move only the version, by the number of increments modulo 2^32, and the live table |
| BleAuthStore.DisciplinedSplit | src/ble_auth_store.hpp:53-91 | A well-formed run of updates splits into two well-formed runs whose increments add up |
| BleAuthStore.NoBumpNoEvents | src/ble_auth_store.hpp:53-91 | Outside an update, fewer than 2^32 events that leave the version where it was are no events |
| BleAuthStore.RunEventsAppend | src/ble_auth_store.hpp:53-91 | Running two event lists in turn is running their concatenation |
| BleAuthStore.TickCorrectedStoresAcceptedVersion | src/ble_auth_store.hpp:119-127 | When the checked copy is persisted, a table the writer accepts is stored exactly as it stood at the even version it loaded, whatever happens after the check |
| BleAuthStore.TickAsWrittenStoresTornTable | src/ble_auth_store.hpp:123-126 | As written, an update that begins after the check and writes part of the table gets that half-written table persisted under the old even version |
| RingLoggerHelpers.DefaultArg | src/ring_logger/ring_logger_helpers.hpp:25 | The default argument is tagged INT8 and holds the 8-bit 0 |
| RingLoggerHelpers.FromInt8 | src/ring_logger/ring_logger_helpers.hpp:26 | The int8 constructor sets the INT8 tag and stores the value in the int8 member |
| RingLoggerHelpers.FromInt16 | src/ring_logger/ring_logger_helpers.hpp:27 | The int16 constructor sets the matching tag and member |
| RingLoggerHelpers.FromInt32 | src/ring_logger/ring_logger_helpers.hpp:28 | The int32 constructor sets the matching tag and member |
| RingLoggerHelpers.FromUInt8 | src/ring_logger/ring_logger_helpers.hpp:29 | The uint8 constructor sets the matching tag and member |
| RingLoggerHelpers.FromUInt16 | src/ring_logger/ring_logger_helpers.hpp:30 | The uint16 constructor sets the matching tag and member |
| RingLoggerHelpers.FromUInt32 | src/ring_logger/ring_logger_helpers.hpp:31 | The uint32 constructor sets the matching tag and member |
| RingLoggerHelpers.FromString | src/ring_logger/ring_logger_helpers.hpp:32 | The string constructor sets the STRING tag and stores the (possibly null) string |
| RingLoggerHelpers.SkipWhitespace | src/ring_logger/ring_logger_helpers.hpp:39-41 | The result is the first position at or after p that is not a space |
| RingLoggerHelpers.FindCommaOrEnd | src/ring_logger/ring_logger_helpers.hpp:43-45 | The result is the first comma at or after p, or the end |
| RingLoggerHelpers.RTrimWhitespace | src/ring_logger/ring_logger_helpers.hpp:47-49 | The result moves back over exactly the spaces before `end`, never before `start` |
| RingLoggerHelpers.CommaIndex | src/ring_logger/ring_logger_helpers.hpp:43-45 | The index of the first comma, or the length when there is none |
| RingLoggerHelpers.CompareStringsIff | src/ring_logger/ring_logger_helpers.hpp:51-53 | The comparison succeeds exactly when the stretch exists in both strings and holds the same characters |
| RingLoggerHelpers.IsLabelEqualIff | src/ring_logger/ring_logger_helpers.hpp:55-57 | A label matches a stretch of the list only in full: it equals exactly those characters |
| RingLoggerHelpers.ScanItems | src/ring_logger/ring_logger_helpers.hpp:59-64 | The item scanned from p runs up to the next comma, and the rest of the items follow that comma |
| RingLoggerHelpers.ScanTrim | src/ring_logger/ring_logger_helpers.hpp:61 | Skipping spaces forward and trimming them backward gives the item with its surrounding spaces removed |
| RingLoggerHelpers.ScanMatch | src/ring_logger/ring_logger_helpers.hpp:59-64 | One step of the scan tests the trimmed first item of the rest of the list |
| RingLoggerHelpers.ScanAgreesStep | src/ring_logger/ring_logger_helpers.hpp:59-64 | If the scan after the next comma agrees with the items, the scan from p does too |
| RingLoggerHelpers.IsLabelInListFromIff | src/ring_logger/ring_logger_helpers.hpp:59-64 | Scanning from any position holds exactly when some trimmed item of the rest of the list equals the label |
| RingLoggerHelpers.IsLabelInListIff | src/ring_logger/ring_logger_helpers.hpp:66-68 | `is_label_in_list` holds exactly when some comma-separated item, with its surrounding spaces removed, equals the label |
| RingLoggerHelpers.EmptyListHoldsNothing | src/ring_logger/ring_logger_helpers.hpp:59-60 | The empty list holds no label, not even the empty one |
| RingLoggerHelpers.FirstOnAllowListExample | test/test_ring_logger/test_ring_logger.cpp:52-58 | "foo" is in "foo,bar" |
| RingLoggerHelpers.SecondOnAllowListExample | test/test_ring_logger/test_ring_logger.cpp:60-62 | "bar" is in "foo,bar" |
| RingLoggerHelpers.NotOnAllowListExample | test/test_ring_logger/test_ring_logger.cpp:64-65 | "garbage" is not in "foo,bar" |
| RingLoggerHelpers.TrimmedItemExample | src/ring_logger/ring_logger_helpers.hpp:61 | "bar" is in "foo , bar ": items are trimmed before comparison |
| RingLoggerHelpers.PrefixOfItemExample | src/ring_logger/ring_logger_helpers.hpp:55-57 | "foo" is not in "foobar": a prefix of an item does not match |
| RingLoggerHelpers.ItemPrefixOfNameExample | src/ring_logger/ring_logger_helpers.hpp:55-57 | "fo" is not in "foo", and an item that is a prefix of the label does not match either |
| RingLoggerFormatter.PlaceholderFrom | src/ring_logger/ring_logger_formatter.hpp:64-68 | The result is the leftmost `{}` at or after the position, or none when there is none |
| RingLoggerFormatter.GetNextPlaceholder | src/ring_logger/ring_logger_formatter.hpp:64-68 | The scanning loop finds a placeholder exactly when one exists from the position, and returns the leftmost |
| RingLoggerFormatter.Copy | src/ring_logger/ring_logger_formatter.hpp:87-92 | It succeeds exactly when the text fits below the limit and then appends it. Otherwise it writes nothing. The index never passes the limit, and nothing at or beyond the limit is written |
| RingLoggerFormatter.Write | src/ring_logger/ring_logger_formatter.hpp:70-85 | An argument's text (decimal for integers, the string as it is, "" for null) is copied like any other piece |
| RingLoggerFormatter.PlaceArgument | src/ring_logger/ring_logger_formatter.hpp:40-44 | A placeholder with an argument left writes the text before it and then the argument, keeping the output a prefix of the formatted text; a failure means the text is longer than the buffer |
| RingLoggerFormatter.CopyRest | src/ring_logger/ring_logger_formatter.hpp:45-47 | With no placeholder or no argument left, the rest of the message completes the formatted text, or the text is longer than the buffer |
| RingLoggerFormatter.WriteTrailingZero | src/ring_logger/ring_logger_formatter.hpp:94-97 | A NUL goes right after the text, or into the last cell when the text filled the buffer; nothing else changes |
| RingLoggerFormatter.FillRound | src/ring_logger/ring_logger_formatter.hpp:38-48 | One loop round either advances with the output still a prefix of the formatted text, or stops having written it all or having found it too long |
| RingLoggerFormatter.FillBuffer | src/ring_logger/ring_logger_formatter.hpp:37-49 | The loop writes the formatted text while it fits and never writes at or past `max_length` |
| RingLoggerFormatter.Print | src/ring_logger/ring_logger_formatter.hpp:31-53 | A null buffer, a null message or `max_length` 0 returns false. Otherwise it returns true exactly when the formatted text is shorter than `max_length`, and then the buffer holds the text followed by NUL. Nothing at or past `max_length` is written |
| RingLoggerFormatter.PlaceholderFromSuffix | src/ring_logger/ring_logger_formatter.hpp:64-68 | Scanning from m finds the leftmost placeholder of the suffix from m, shifted by m |
| RingLoggerFormatter.FormatFromAt | src/ring_logger/ring_logger_formatter.hpp:40-44 | At a placeholder with an argument left, the text is the literal before it, the argument's text, then the text after it |
| RingLoggerFormatter.FormatFromIsFormat | src/ring_logger/ring_logger_formatter.hpp:37-52 | The position-based text that `print` follows agrees with the reference left-to-right substitution |
| RingLoggerFormatter.FormatLiteral | test/test_ring_logger/test_ring_logger_formatter.cpp:7-20 | A message without placeholders, the empty one included, is its own text |
| RingLoggerFormatter.FormatWithoutArgs | src/ring_logger/ring_logger_formatter.hpp:40 | With no arguments the message is copied as it is, placeholders included |
| RingLoggerFormatter.FormatSubstitutes | src/ring_logger/ring_logger_formatter.hpp:40-44 | The leftmost placeholder takes the first argument, and the rest is formatted with the remaining arguments |
| RingLoggerFormatter.FormatIntExample | test/test_ring_logger/test_ring_logger_formatter.cpp:23-29 | "Value: {}" with 42 gives "Value: 42" |
| RingLoggerFormatter.FormatStringExample | test/test_ring_logger/test_ring_logger_formatter.cpp:58-64 | "String: {}" with "Test" gives "String: Test" |
| RingLoggerFormatter.FormatMissingArgExample | test/test_ring_logger/test_ring_logger_formatter.cpp:41-47 | Once the arguments run out, the second `{}` is copied literally |
| RingLogger.Pull | src/ring_logger/ring_logger.hpp:74-77 | `pull` never yields a record |
| RingLogger.LevelOrder | src/ring_logger/ring_logger.hpp:12-17 | The levels are ordered DEBUG < INFO < ERROR < NONE, and distinct levels have distinct ranks |
| RingLogger.ShouldLogIff | src/ring_logger/ring_logger.hpp:21-26 | A call is logged exactly when its level reaches the compile-time level, the allowed list is "" or "*" or has the label as a trimmed item, and the ignored list does not |
| RingLogger.BelowCompileLevelSuppressed | src/ring_logger/ring_logger.hpp:23 | A call below the compile-time level is never logged |
| RingLogger.NoneLevelSilences | src/ring_logger/ring_logger.hpp:12-23 | A logger compiled at NONE logs nothing |
| RingLogger.IgnoredOverridesAllowed | src/ring_logger/ring_logger.hpp:25 | An ignored label is never logged, even when allowed |
| RingLogger.WildcardAdmitsAll | src/ring_logger/ring_logger.hpp:24 | Under an allowed list of "" or "*", any label at a high enough level that is not ignored is logged |
| RingLogger.RestrictedListNeedsMembership | src/ring_logger/ring_logger.hpp:24 | Under any other allowed list, a logged label is one of its items |
| RingLogger.UnlabelledPushSuppressed | src/ring_logger/ring_logger.hpp:47-50 | `push` uses the empty label, so under a restrictive allowed list with no empty item it is suppressed at every level |
| RingLogger.DefaultLogsEverything | src/ring_logger/ring_logger.hpp:37-44 | The default logger logs every call at every level below NONE |
| RingLogger.IgnoreLabelExample | test/test_ring_logger/test_ring_logger.cpp:40-50 | With "garbage" ignored, `lpush_info<garbage>` is suppressed and `lpush_info<foo>` is logged |
| RingLogger.AllowedLabelsExample | test/test_ring_logger/test_ring_logger.cpp:52-66 | With "foo,bar" allowed, foo and bar are logged and garbage is not |

## Left out

- ArduinoJson parsing and serialising are not modelled. `deserializeJson` and `serializeJson` are a foreign library. The request is a datatype (a parse error or a name with arguments), and the response is a datatype (ok and result), not its JSON text.
- The template machinery and the `static_assert`s are not modelled: allowed types, reference checks, supported argument types, label spaces. Signatures are lists of type tags instead.
- JsonRpc.IsJsonType: `is<float>` and `is<double>` accept every number. Range and precision of floating point are not modelled.
- Threads and memory ordering are not modelled: `std::atomic`, the writer task, `vTaskDelay`. Interleavings are sequences of update events run between the writer's steps.
- BleAuthStore `lazy_init` and the `Preferences` I/O are not modelled. Persisted tables are fields, and `putBytes` is an assignment to them.
- The writer's clock is the parameter `now` of `AsyncPreference.Writer.Tick`.
- AsyncPreference.Writer.Add requires the new preference to be valid, and to differ from every registered one in object and in (store, namespace, key). The source does not check this. Two preferences on one key would race on one store entry, and the model does not cover that.
- A preference value of type T is modelled as its byte image.
- The TypeScript transport is not modelled: `sendOne`/`send`, their queues, retries and sleeps, and `console.log`.
- The BLE glue, drivers and bootstrap are not part of this model.
- `lpush` printing to `std::cout` is left out. The pulled-text expectations of the logger tests are not implemented by `pull`, so only the gate is modelled.
- `ring_logger_packer.hpp` is not part of this model.
- CheckAppChunker.FromBuffer and CliToolsChunker.FromBuffer require at least 4 bytes. On a shorter buffer the TypeScript reads `undefined`. `isNodata` guards every such call in the client.
- CheckAppChunker.ClientChunker.constructor and CliToolsChunker.ClientChunker.constructor require `maxBlobSize > 4`. The source does not check this, and a chunk size of 0 or less would make its split loop run forever.
- `size_t` overflow of message sizes is not modelled.
- BleChunker: the 16-bit sequence numbers wrap explicitly modulo 2^16. The model does not add the precondition that a message fits in 65536 chunks.
- BleChunker.InitialState: `currentMessageId` is left uninitialised by the source. The model starts it at 0; `firstMessage` makes its value irrelevant.
- RingLoggerFormatter.Write: the `default` branch of the tag switch cannot be reached with a tag set by a constructor. The model's argument type excludes inconsistent tags.
- RingLoggerHelpers.IsLabelInListIff and the lemmas built on it assume labels and lists without NUL characters, as C strings are.
- AsyncPreference.SaveLoadRoundTrip: an empty buffer value is stored with length 0, which reads back as absent, so it does not round-trip. The lemma states this case as it is.
- The command-line client's `mergeUint8Arrays` (support/ble_cli_tools/src/BleClientChunker.ts:38-42) is the same code as the check app's. It is modelled once, by CheckAppChunker.MergeUint8Arrays.
- src/rpc/ble_auth_store.hpp is identical to src/ble_auth_store.hpp, line for line. The `BleAuthStore` members model both.

## Findings

| source | as written | input that shows it | evidently intended | confidence | as-written member | corrected member |
|---|---|---|---|---|---|---|
| support/ble_cli_tools/src/BleClientChunker.ts:17, 23-24 | The command-line client writes and reads the sequence number high byte first, but the firmware reads it low byte first (src/ble_chunker.hpp:30) | The message [7, 8] with blob size 5: the second chunk carries sequence 1 as bytes 0, 1, which the firmware reads as 256. It answers [1, 0, 0, 3] (MISSED and FINAL) and never delivers the message | The low-byte-first layout of the firmware and the check app | not executed | ChunkRoundTrip.CliMultiChunkRejected | ChunkRoundTrip.CheckAppRoundTrip |
| src/ble_auth_store.hpp:125, 136 | `writer_tick` checks the version after copying the table into `clients_copy`, then persists the live `clients` (and `timestamps`) instead of the copy | An update that begins right after the check and writes part of the table before `putBytes` runs: that half-written table is stored, and recorded under the old even version | Persist `clients_copy` and `timestamps_copy`, the copies the version check vouched for | not executed | BleAuthStore.TickAsWrittenStoresTornTable | BleAuthStore.TickCorrectedStoresAcceptedVersion |
