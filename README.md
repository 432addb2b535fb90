# Anchor in Dafny

Anchor is a Rust implementation of the firmware side of the Klipper host–MCU
protocol. This project models two parts of it and proves properties of the
model.

- **The runtime protocol engine.** This is the VLQ parameter codec and the
  typed `Readable`/`Writable` mappings. It also covers the framing layer: the
  CRC-16, the resynchronising receive loop with its sequence numbers and
  acknowledgements, and the frame encoder that back-patches the length byte.
  The three byte buffers this layer runs on are modelled as well.
- **The build-time dictionary compiler.** This part turns the
  `klipper_command`, `klipper_reply!`, `klipper_output!`,
  `klipper_enumeration`, `klipper_static_string!` and `klipper_shutdown!`
  declarations into three things:
  - a name-ordered message map with numeric ids;
  - the data dictionary;
  - the code it generates: the dispatcher, the command handlers, the reply and
    output senders, and `handle_identify`.
- **Two small pieces of the demo firmware.** These are the `config_crc`
  handshake of the standard commands, and the wrapping 32-bit timestamps with
  the uptime split of the rp2040 and esp32c3 clocks.

## How the model is built

- **One module per source file:**
  - `Encoding`, `Transport`, `OutputBuffers`, `Fifo` and `InputBuffers` model
    `anchor/`;
  - `MsgDesc`, `OutputFormat`, `StaticStrings`, `Enumerations`, `Utils`,
    `Commands` and `Replies` model the like-named files of `anchor_codegen/`;
  - `MessageMap`, `StringTracker`, `IdAssign`, `Processing` and `Generated`
    model `anchor_codegen/src/lib.rs`;
  - `Clock` and `DemoCommands` model the demos.
- **Support modules:**
  - `Types` holds the fixed-width integers, casts, `Option` and `Result`;
  - `Syn` holds tokens and attributes;
  - `Text` holds ASCII case mapping and decimal rendering.
- **Imperative code stays imperative:**
  - buffers are classes over an `array` or a `seq` field;
  - `Transport` and the build `Processor` are classes whose methods change
    their fields;
  - loops in the source are `while` loops with invariants.
- **Methods are specified by functions.** Each such method is proved equal to
  a function of the old state (`ReceiveData` to `Scan`, `AssignCommandIds` to
  `AssignIds`, and so on). The properties the source promises are then proved
  about that function.
- **Panics are values.**
  - A panic of the build script is an `Err(Panic(...))`.
  - A `syn` parse error is an `Err(Parse(...))`.
  - An arithmetic overflow in build-time code panics, as under debug
    assertions.
  - On the firmware side, `wrapping_*` operations and casts are written out
    modulo 2^n.
  - The generated `handle_identify` runs in the firmware, which is built in
    release mode. `Generated.HandleIdentifyAsWritten` therefore follows
    release-build wrapping for the `u32` sum at
    anchor_codegen/src/lib.rs:809. A debug build would panic on that `+`
    instead.
  - A firmware panic on the runtime side, such as a buffer
    `copy_from_slice` of the wrong length, makes a method return `ok` false.
    The spec functions mark it with a `Panicked` outcome.
  - `abort!` in `Command::parse` panics the build script, so it is an
    `Err(Panic(...))`. The `?` on `Arg::new` returns a `syn` error, which is an
    `Err(Parse(...))`.
- **Attribute handling.** `syn` identifiers and types are strings. An
  expression is a single token. `#[cfg]` is evaluated against a set of
  defined feature names.
- **Outside code is a parameter.** The dispatch function of the transport is
  a parameter of type `(u16, seq<u8>, C) -> Dispatched<C>`. The transport
  output is the sequence of bytes handed to it. The demo timers' counter
  values are arguments.

## Model

| member | source | states |
|---|---|---|
| `Encoding.NextByte` | anchor/src/encoding.rs:18-26 | empty input fails and leaves the cursor; otherwise the first byte, with the cursor one byte on |
| `Encoding.ParseVlqInt` | anchor/src/encoding.rs:28-40 | the byte-by-byte loop returns exactly the value and cursor of the `DecodeVlq` reading (first group sign extended when bits 5 and 6 are set, then seven bits per continuation byte, modulo 2^32) |
| `Encoding.DecodeVlqSuffix` | anchor/src/encoding.rs:28-40 | a read leaves the cursor on a suffix of its input, and a successful read consumes at least one byte |
| `Encoding.DecodeVlqEmpty` | anchor/src/encoding.rs:18-29 | reading from an empty cursor fails and leaves it empty |
| `Encoding.DecodeSignExtended` | anchor/src/encoding.rs:29-33 | a lone byte in 0x60..0x7F decodes as the `u32` whose `i32` reading is `c - 128` |
| `Encoding.Piece` | anchor/src/encoding.rs:54-65 | each guarded `output` of `encode_vlq_int` contributes one byte exactly when `sv` lies outside its range, and none otherwise |
| `Encoding.WriteVlq` | anchor/src/encoding.rs:52-67 | the five conditional `output` calls append exactly `EncodeVlq(v)` when it fits the buffer; `ok` is false, a panic, exactly when it does not |
| `Encoding.OutputPiece` | anchor/src/encoding.rs:54-65 | one guarded `output` call appends its continuation byte exactly when the signed value lies outside the call's range, and panics exactly when that byte does not fit |
| `Encoding.WriteSlice` | anchor/src/encoding.rs:116-129 | a slice or string appends its VLQ length and then its bytes exactly when both fit, and panics exactly when they do not |
| `Encoding.EncodeVlqShape` | anchor/src/encoding.rs:52-67 | every encoding is 1 to 5 bytes, bit 7 set on every byte but the last and clear on the last |
| `Encoding.EncodeVlqSingleByte` | anchor/src/encoding.rs:63-66 | a value takes a single byte exactly when its `i32` reading lies in [-32, 96) |
| `Encoding.EncodeVlqSmall` | anchor/src/encoding.rs:63-66 | a value below 96 is written as the one byte that holds it |
| `Encoding.VlqRoundTrip` | anchor/src/encoding.rs:28-67 | decoding the encoding of any `u32` followed by any bytes gives the value back and leaves exactly those bytes |
| `Encoding.SignedCast` | anchor/src/encoding.rs:53 | `v as i32` cast back to `u32` is `v` |
| `Encoding.WidenCasts` | anchor/src/encoding.rs:69-89 | widening `u8`, `u16`, `i16` and `i32` to `u32` and casting back on reading is the identity |
| `Encoding.ValueRoundTrip` | anchor/src/encoding.rs:69-121 | for every readable wire type, writing a value and reading it back with the same type returns it and leaves exactly what followed |
| `Encoding.SliceRoundTrip` | anchor/src/encoding.rs:103-121 | a byte slice shorter than 2^32 bytes reads back whole after its length prefix |
| `Encoding.ScalarRoundTrip` | anchor/src/encoding.rs:69-101 | an integer or bool is widened to `u32` on writing and narrowed back to the same value on reading |
| `Encoding.ShortSliceFails` | anchor/src/encoding.rs:103-113 | a slice whose length prefix announces more bytes than remain fails, with the cursor left after the prefix |
| `Encoding.BoolEncoding` | anchor/src/encoding.rs:91-101 | a bool is written as the single byte 0 or 1, and any non-zero value reads back as true |
| `Encoding.StrIsByteSlice` | anchor/src/encoding.rs:116-129 | a string is written exactly as the byte slice of its bytes |
| `Encoding.Read` | anchor/src/encoding.rs:69-114 | `read` as the code runs it returns exactly `ReadValue` for the requested type |
| `Encoding.Write` | anchor/src/encoding.rs:69-129 | `write` appends exactly `EncodeValue(v)` when it fits the buffer, and panics exactly when it does not |
| `OutputBuffers.Truncated` | anchor/src/encoding.rs:46-48 | what the documented truncation keeps of a byte string: the prefix of the given capacity, or all of it when it fits |
| `OutputBuffers.TruncatedTwice` | anchor/src/encoding.rs:46-48 | with the documented truncation, outputting into an already truncated buffer is the same as truncating the whole concatenation once |
| `OutputBuffers.ScratchOutput.constructor` | anchor/src/output_buffer.rs:40-46 | a new scratch buffer of the given capacity holds no bytes |
| `OutputBuffers.ScratchOutput.Reset` | anchor/src/output_buffer.rs:35-38 | the index returns to zero and the result is empty |
| `OutputBuffers.ScratchOutput.Output` | anchor/src/output_buffer.rs:52-57 | as written: bytes that fit are appended and the index advances by their length; bytes that do not fit make `copy_from_slice` panic (`ok` false) with the buffer unchanged; bytes past the index are untouched either way |
| `OutputBuffers.ScratchOutput.CopyIn` | anchor/src/output_buffer.rs:55 | the copy writes the first `len` bytes of `buf` at the index and leaves every other byte of the buffer as it was |
| `OutputBuffers.ScratchOutput.OutputTruncating` | anchor/src/encoding.rs:46-48 | the documented truncation: the index advances by the clamped length and the result is the old result plus `buf`, truncated to capacity |
| `OutputBuffers.OverlongOutput` | anchor/src/output_buffer.rs:52-57 | three bytes into a 2-byte scratch buffer panic as written, where the documented truncation keeps `[1, 2]` |
| `OutputBuffers.ScratchOutput.CurPosition` | anchor/src/output_buffer.rs:59-61 | the cursor is the index, never past the capacity |
| `OutputBuffers.ScratchOutput.Update` | anchor/src/output_buffer.rs:63-69 | a cursor below the index replaces that one byte; any other cursor changes nothing |
| `OutputBuffers.ScratchOutput.DataSince` | anchor/src/output_buffer.rs:71-77 | empty for a cursor at or past the index, otherwise the result from the cursor on |
| `OutputBuffers.VecOutput.Output` | anchor/src/output_buffer.rs:84-86 | the vector grows by exactly `buf` |
| `OutputBuffers.VecOutput.CurPosition` | anchor/src/output_buffer.rs:88-90 | the index of the last byte, or 0 for an empty vector (saturating subtraction) |
| `OutputBuffers.VecOutput.Update` | anchor/src/output_buffer.rs:92-94 | the byte at the cursor is replaced, the rest kept; a cursor past the end is refused by the precondition, where the source panics |
| `OutputBuffers.VecOutput.DataSince` | anchor/src/output_buffer.rs:96-98 | the data is the prefix before the cursor followed by the returned bytes |
| `Fifo.FifoBuffer.constructor` | anchor/src/fifo_buffer.rs:14-19 | a new FIFO of the given size holds no data |
| `Fifo.FifoBuffer.IsEmpty` | anchor/src/fifo_buffer.rs:22-24 | true exactly when no data is held |
| `Fifo.FifoBuffer.Len` | anchor/src/fifo_buffer.rs:27-29 | the length of the held data, at most the buffer size |
| `Fifo.FifoBuffer.ReceiveBuffer` | anchor/src/fifo_buffer.rs:32-34 | the unfilled tail: the buffer is the held data followed by it |
| `Fifo.FifoBuffer.Extend` | anchor/src/fifo_buffer.rs:39-47 | bytes that fit are appended to the held data; bytes that do not fit are dropped whole and the data stays as it was |
| `Fifo.FifoBuffer.Advance` | anchor/src/fifo_buffer.rs:52-54 | the used count moves forward by `n`, clamped to the buffer size, exposing what was written into the receive buffer |
| `Fifo.FifoBuffer.Pop` | anchor/src/fifo_buffer.rs:65-71 | the first `min(n, len)` bytes are removed and the rest moves to the front |
| `Fifo.ReadPacket` | rp2040_demo/src/main.rs:81-83 | writing a packet into the receive buffer and advancing by its length appends exactly the packet to the held data |
| `InputBuffers.SliceInputBuffer.constructor` | anchor/src/input_buffer.rs:18-22 | the buffer's data is the slice it wraps |
| `InputBuffers.SliceInputBuffer.Available` | anchor/src/input_buffer.rs:7-9 | the number of bytes in the data |
| `InputBuffers.SliceInputBuffer.Pop` | anchor/src/input_buffer.rs:29-32 | the first `min(count, len)` bytes are dropped |
| `InputBuffers.VecInputBuffer.Available` | anchor/src/input_buffer.rs:45-47 | the length of the vector |
| `InputBuffers.VecInputBuffer.Pop` | anchor/src/input_buffer.rs:41-43 | the first `count` bytes are removed and the rest kept in order; a count past the end is refused by the precondition, where the source panics |
| `Transport.XorSelf` | anchor/src/transport.rs:22-25 | the XOR the checksum is built from cancels itself |
| `Transport.XorWord` | anchor/src/transport.rs:22-25 | XOR of two 16-bit values stays within 16 bits, so every intermediate checksum is a `u16` |
| `Transport.Crc16` | anchor/src/transport.rs:19-28 | the loop over the buffer returns `Crc16Of(buf)`, the byte update folded from 0xFFFF over every byte in order |
| `Transport.Trailer` | anchor/src/transport.rs:169-173 | three bytes, the checksum's high and low byte recombining to it, then the sync byte 0x7E |
| `Transport.HighBits` | anchor/src/transport.rs:89 | `seq & !MESSAGE_SEQ_MASK` equals the destination 0x10 exactly when the sequence byte lies in 0x10..0x1F |
| `Transport.NextSeq` | anchor/src/transport.rs:112-115 | the next expected sequence stays in 0x10..0x1F and its low nibble is the old one plus one, modulo 16 |
| `Transport.AckNak` | anchor/src/transport.rs:141-153 | an acknowledgement is a frame of the minimum length 5 |
| `Transport.AckNakIsEmptyFrame` | anchor/src/transport.rs:141-175 | the fast-path acknowledgement is byte for byte the frame `encode_frame` would build around an empty payload |
| `Transport.FrameBytes` | anchor/src/transport.rs:156-175 | a frame is its payload plus five bytes of header and trailer |
| `Transport.FrameBytesValid` | anchor/src/transport.rs:78-110 | every frame this side builds around a payload of at most 59 bytes passes all of the receiver's checks, and the receiver recovers the payload and the bytes after it |
| `Transport.Framed` | anchor/src/transport.rs:156-175 | the frames `encode_frame` sends for a run of replies, up to the first reply too long for the 64-byte buffer, where it panics: never more frames than replies |
| `Transport.AllFitEvery` | anchor/src/transport.rs:156-175 | a run of replies all fit exactly when each reply plus the five bytes of framing fits the 64-byte buffer |
| `Transport.FramedFrames` | anchor/src/transport.rs:156-175 | `Framed` frames every reply exactly when all fit; each frame is its reply's, in order, and a short result stops at the first reply that does not fit |
| `Transport.FramedAppend` | anchor/src/transport.rs:156-175 | two runs of replies all fit exactly when each does; framing both is framing the first and, only when it all fit, then the second |
| `Transport.FramedNextFits` | anchor/src/transport.rs:156-175 | a reply that fits after a run that all fit adds exactly its own frame |
| `Transport.FramedNextStops` | anchor/src/transport.rs:156-175 | a reply that does not fit after a run that all fit ends the sending: nothing after it is framed |
| `Transport.Command` | anchor/src/transport.rs:133-136 | one command read: a VLQ command id, then the dispatcher; a further command is only read from a strictly shorter rest |
| `Transport.RunFrameUnfold` | anchor/src/transport.rs:128-138 | `parse_frame` runs commands until the frame is empty or a read fails, collecting every reply in order |
| `Transport.RunEmptyFrame` | anchor/src/transport.rs:133-137 | an empty frame runs no command and succeeds |
| `Transport.RunSingleCommand` | anchor/src/transport.rs:128-138 | a frame holding one command id and arguments the dispatcher consumes completely runs that command once |
| `Transport.FindSync` | anchor/src/transport.rs:65 | the position of the first sync byte, or none when the data holds none |
| `Transport.FrameStep` | anchor/src/transport.rs:78-118 | a synchronised step on a non-sync byte either waits for more input or moves on to a suffix of the data; whenever it stays synchronised it consumes input |
| `Transport.Deliver` | anchor/src/transport.rs:109-118 | a frame run on the expected sequence panics exactly when one of its replies does not fit, after sending the frames before it; otherwise the receiver stays synchronised on the rest, advances the sequence only for the expected one, and ends with an acknowledgement carrying the new expected sequence |
| `Transport.Step` | anchor/src/transport.rs:62-119 | each turn of the receive loop either stops or strictly decreases the measure (twice the data length, plus one while synchronised, so that dropping synchronisation counts as progress), leaving a suffix of the data |
| `Transport.StepAcceptsValidFrames` | anchor/src/transport.rs:78-110 | a synchronised step panics or consumes a whole frame and stays synchronised exactly when the frame is valid: length in 5..64, sequence byte 0x1_, complete, sync byte last, checksum matching |
| `Transport.StepRejects` | anchor/src/transport.rs:78-107 | an invalid frame either waits for more data or drops synchronisation without consuming anything; waiting happens exactly when fewer than 5 bytes are buffered or a well-headed frame is still incomplete |
| `Transport.StepSkipsSync` | anchor/src/transport.rs:73-76 | a sync byte seen while synchronised is skipped |
| `Transport.StepResynchronises` | anchor/src/transport.rs:63-71 | unsynchronised, the receiver drops everything up to and including the first sync byte, resynchronises and acknowledges, or drops all data when there is no sync byte |
| `Transport.StepDelivers` | anchor/src/transport.rs:109-118 | a valid frame with the expected sequence runs its commands and, when every reply fits, sends the replies and then an acknowledgement carrying the next sequence, else panics after the frames that fit; a valid frame with another sequence is only acknowledged |
| `Transport.ScanKeepsSeqInRange` | anchor/src/transport.rs:111-115 | the expected sequence never leaves 0x10..0x1F |
| `Transport.ScanLeavesSuffix` | anchor/src/transport.rs:58-125 | the data left unconsumed is a suffix of the input |
| `Transport.ScanStopsOnlyForInput` | anchor/src/transport.rs:62-95 | `receive` ends in a panic only on a valid frame; otherwise it stops only when the data is used up, or synchronised with fewer bytes than a minimal or the announced frame |
| `Transport.FrameRoundTrip` | anchor/src/transport.rs:58-175 | a frame this side encodes with the expected sequence is received whole: its payload's commands run, and the replies and acknowledgement follow when every reply fits, else the panic |
| `Transport.RetransmissionIgnored` | anchor/src/transport.rs:109-118 | a valid frame with an unexpected sequence runs nothing, keeps the sequence and is acknowledged once |
| `Transport.Transport.constructor` | anchor/src/transport.rs:49-55 | a new transport is synchronised, expects sequence 0x10 and has sent nothing |
| `Transport.Transport.EncodeAcknak` | anchor/src/transport.rs:141-153 | one acknowledgement for the current expected sequence is sent |
| `Transport.FinishFrame` | anchor/src/transport.rs:165-173 | after header and payload, the length byte is patched to the frame length and the CRC trailer appended, leaving exactly `FrameBytes(ns, payload)` when the frame fits; the trailer `output` panics exactly when it does not |
| `Transport.Transport.EncodeFrame` | anchor/src/transport.rs:156-175 | one frame around the payload with the current sequence is sent exactly when it fits the 64-byte buffer; otherwise the trailer or payload `output` panics and nothing is sent |
| `Transport.Transport.SendReplies` | anchor/src/transport.rs:156-175 | the replies are sent as the frames of `Framed`, in order, and the loop panics exactly when some reply does not fit |
| `Transport.Transport.ParseCommand` | anchor/src/transport.rs:133-136 | one command read as `Command` specifies, its replies sent as the frames of `Framed`, panicking exactly when one does not fit |
| `Transport.Transport.ParseFrame` | anchor/src/transport.rs:128-138 | the loop sends the frames of `Framed` for all the replies of `RunFrame` and panics exactly when they do not all fit; otherwise it gives `RunFrame`'s result and context |
| `Transport.Transport.AcceptFrame` | anchor/src/transport.rs:109-118 | panics exactly when `Deliver` does, after sending its frames; otherwise the new synchronisation flag, sequence and context are those of `Deliver` |
| `Transport.Transport.ReceiveFrame` | anchor/src/transport.rs:73-118 | one synchronised turn of the loop: stopping leaves everything unchanged, a panic is `FrameStep`'s, and otherwise the new state and the frames sent are those of `FrameStep` |
| `Transport.Transport.ReceiveTrailer` | anchor/src/transport.rs:96-118 | a complete frame with a wrong sync byte or CRC drops synchronisation; otherwise the new state, frames sent and panic are those of `FrameTrailer` |
| `Transport.Transport.ReceiveStep` | anchor/src/transport.rs:62-119 | one turn of the loop, with the new state and frames sent of `Step`, panicking exactly when `Step` does |
| `Transport.Transport.ReceiveData` | anchor/src/transport.rs:58-120 | the whole loop sends the frames of `Scan`, panics exactly when `Scan` does, and otherwise reaches its final state |
| `Transport.Transport.ReceiveSlice` | anchor/src/transport.rs:58-126 | `receive` on a slice buffer: the loop's outcome; without a panic, exactly the consumed bytes are popped from the buffer |
| `Transport.Transport.ReceiveVec` | anchor/src/transport.rs:58-126 | `receive` on a vector buffer: the loop's outcome; without a panic, exactly the consumed bytes are popped from the buffer |
| `MsgDesc.TypeFormatDomain` | anchor_codegen/src/msg_desc.rs:10-20 | exactly the seven type names `u32`, `i32`, `& [u8]`, `bool`, `u8`, `u16`, `i16` have a Klipper format, and every format is one of `%u`, `%i`, `%*s`, `%c`, `%hu`, `%hi` |
| `MsgDesc.TypeFormatSharedOnlyByBytes` | anchor_codegen/src/msg_desc.rs:10-20 | two different mapped types share a format only when they are `bool` and `u8` |
| `MsgDesc.BuildMessageDescriptor` | anchor_codegen/src/msg_desc.rs:22-39 | the loop returns `Descriptor(name, args)`: the name followed by ` name=fmt` per argument, or the panic for the first argument whose type has no format |
| `MsgDesc.FieldsErrPersists` | anchor_codegen/src/msg_desc.rs:29-36 | the first unmapped argument decides the panic; the arguments after it do not matter |
| `MsgDesc.DescriptorNoArgs` | anchor_codegen/src/msg_desc.rs:27-38 | a message without arguments is described by its bare name |
| `MsgDesc.DescriptorOkIff` | anchor_codegen/src/msg_desc.rs:29-36 | a descriptor is built exactly when every argument type has a format |
| `MsgDesc.LastSpaceAppend` | anchor_codegen/src/msg_desc.rs:35 | a word without spaces appended after a space is found again after the last space |
| `MsgDesc.DescriptorWords` | anchor_codegen/src/msg_desc.rs:22-39 | for names without spaces the descriptor splits at its spaces into the message name and then one `name=fmt` word per argument, in order, so the host can read the argument list back |
| `Utils.RunVisitAttribs` | anchor_codegen/src/utils.rs:3-26 | the nested loops return exactly `VisitAttribs`: every nested item of every `#[ident(...)]` attribute fed to the callback in order, stopping at the first error, with `expected #[ident(...)]` for an attribute that is not a list |
| `Utils.VisitAttribs` | anchor_codegen/src/utils.rs:3-26 | with no attribute of the name the visit does nothing and reports no error; a visit without error saw every attribute of the name as a `(...)` list |
| `Utils.FoldAppend` | anchor_codegen/src/utils.rs:20-24 | visiting two runs of items in a row is visiting the second from the state the first left |
| `Utils.VisitItemsInfallible` | anchor_codegen/src/utils.rs:20-24 | with a callback that never fails, visiting a list of items is a plain fold and reports no error |
| `Utils.VisitInfallible` | anchor_codegen/src/utils.rs:3-26 | with a callback that never fails, a visit folds over exactly the nested items of the attributes with the given name |
| `Utils.VisitSkipsOthers` | anchor_codegen/src/utils.rs:8-10 | an attribute with another name is not looked at |
| `Utils.FeatureEnvName` | anchor_codegen/src/utils.rs:34-35 | the environment variable consulted for a feature is `CARGO_FEATURE_` followed by the feature name, character by character, upper-cased and with `-` replaced by `_` |
| `Utils.GetLitStr` | anchor_codegen/src/utils.rs:70-76 | only a string literal is accepted, and it is returned unchanged |
| `Utils.CheckExpr` | anchor_codegen/src/utils.rs:28-55 | `feature = "x"` holds exactly when `CARGO_FEATURE_X` is set; a predicate is false only if it is such a feature test or a `not`, `all` or `any` list, so anything else counts as true |
| `Utils.CheckAll` | anchor_codegen/src/utils.rs:45-47 | `all(...)` holds exactly when every nested predicate holds |
| `Utils.CheckAny` | anchor_codegen/src/utils.rs:48-50 | `any(...)` holds exactly when some nested predicate holds |
| `Utils.FoldAnd` | anchor_codegen/src/utils.rs:56-62 | the callback that clears `v` at the first false predicate leaves `v` true exactly when it started true and every predicate holds |
| `Utils.CheckIsDisabled` | anchor_codegen/src/utils.rs:28-64 | the result is the negation of the visit's final `v`, the visit's error ignored |
| `Utils.DisabledIffSomeCfgFalse` | anchor_codegen/src/utils.rs:28-64 | an item is disabled exactly when one of the cfg predicates reached evaluates to false |
| `Utils.CheckIsEnabled` | anchor_codegen/src/utils.rs:66-68 | an item is enabled exactly when every cfg predicate reached holds |
| `Commands.StripUnderscore` | anchor_codegen/src/command.rs:20-21 | at most one leading underscore is removed, and one is removed whenever present |
| `Commands.NewArg` | anchor_codegen/src/command.rs:18-24 | an argument is built exactly when the name without its leading underscore is still an identifier, and then carries that name and the type unchanged |
| `Commands.HasContextParam` | anchor_codegen/src/command.rs:64-78 | the first parameter is taken as the context exactly when it is a typed plain identifier named `context`, `ctx`, `_context` or `_ctx` |
| `Commands.ContextNames` | anchor_codegen/src/command.rs:69-71 | stripping one underscore and comparing with `context`/`ctx` accepts exactly those four names |
| `Commands.ParseCommand` | anchor_codegen/src/command.rs:80-116 | the parse loop returns `CommandOf(f)`: the context peeked off, then one argument per remaining parameter, stopping at the first refused one with its `syn` error or its `abort!` |
| `Commands.ArgsFromOk` | anchor_codegen/src/command.rs:88-104 | the arguments parse exactly when every parameter is a typed plain identifier that survives `Arg::new`, and then there is one argument per parameter, in order, with the underscore stripped |
| `Commands.CommandOf` | anchor_codegen/src/command.rs:80-116 | a parsed command has no id and no module, is named and handled by the function, has a context exactly when `parse_has_context_param` says so, and lists every other parameter in order; parsing fails exactly when one of those parameters is not a plain identifier parameter |
| `Commands.ArgOf` | anchor_codegen/src/command.rs:90-103 | a parameter gives an argument exactly when it is a typed identifier pattern whose name, less one underscore, is an identifier, and the argument is that name and type; `Arg::new`'s error is a `syn` error, the other refusals are `abort!` |
| `Commands.FirstRefusedReported` | anchor_codegen/src/command.rs:96-101 | the first non-identifier parameter aborts the parse, an `abort!` and not a `syn` error, with `Argument {idx} has non-identifier name`, `idx` its position in the signature |
| `Commands.HandlerFnName` | anchor_codegen/src/command.rs:37-39 | the handler function is `_anchor_` + name + `_handler` |
| `Commands.HandlerFnNameInjective` | anchor_codegen/src/command.rs:37-39 | distinct commands get distinct handler functions |
| `Commands.Target` | anchor_codegen/src/command.rs:41-51 | the bare handler name without a module; with one, a path starting `crate::` and ending with the handler name |
| `Commands.ModulePathAppend` | anchor_codegen/src/command.rs:46-48 | the module path lists the segments in order, each followed by `::`: entering a submodule appends its segment |
| `Commands.TargetInjective` | anchor_codegen/src/command.rs:41-51 | with identifier segments and handler names, two commands get the same path exactly when they have the same module path and the same handler |
| `Commands.GetDescString` | anchor_codegen/src/command.rs:53-61 | the descriptor of a command is refused exactly when one of its argument types has no format |
| `Commands.DescArgs` | anchor_codegen/src/command.rs:53-61 | one descriptor argument per command argument, in order, with its name and type |
| `Commands.ParsedCommandDescriptor` | anchor_codegen/src/command.rs:53-61 | the descriptor of a parsed command with mapped argument types splits into the command name and one `name=fmt` word per argument, in order |
| `Replies.SenderFnName` | anchor_codegen/src/reply.rs:25-27 | the sender is `send_reply_` followed by the reply name |
| `Replies.GetDescString` | anchor_codegen/src/reply.rs:29-37 | the descriptor of a reply is refused exactly when one of its argument types has no format |
| `Replies.SenderFnNameInjective` | anchor_codegen/src/reply.rs:25-27 | distinct replies get distinct senders |
| `Replies.DescArgs` | anchor_codegen/src/reply.rs:29-37 | one descriptor argument per reply argument, in order, with its name and type |
| `Replies.Cleared` | anchor_codegen/src/reply.rs:39-43 | every argument keeps its name and type and loses its value |
| `Replies.ClearArgValues` | anchor_codegen/src/reply.rs:39-43 | the loop leaves the reply with `Cleared` arguments and everything else as it was |
| `Replies.ClearedKeepsDescriptor` | anchor_codegen/src/reply.rs:29-43 | clearing the values keeps the number, names and types of the arguments, and so the descriptor |
| `Replies.ClearedForgetsValues` | anchor_codegen/src/reply.rs:39-43 | two declarations of a reply that differ only in argument values are equal once cleared |
| `Replies.OneAttr` | anchor_codegen/src/reply.rs:61-73 | reading one `name = value` attribute consumes tokens |
| `Replies.OneArg` | anchor_codegen/src/reply.rs:79-91 | reading one `, name: Type [= value]` argument consumes tokens |
| `Replies.ParseReply` | anchor_codegen/src/reply.rs:46-94 | the parse loops return `ReplyOfAsWritten(ts)`: the name, the optional bracketed attributes with the separating comma read after the bracket as the code does, then the arguments, or the first syntax error |
| `Replies.ArgListStep` | anchor_codegen/src/reply.rs:78-92 | the argument loop reads one argument and continues on what it left |
| `Replies.UnknownAttribute` | anchor_codegen/src/reply.rs:63-72 | any attribute other than `id` is refused with `Unknown attribute '{name}'` |
| `Replies.OneArgReads` | anchor_codegen/src/reply.rs:79-91 | the tokens of an argument, with or without a value, read back as that argument |
| `Replies.ArgListRoundTrip` | anchor_codegen/src/reply.rs:77-92 | the tokens of any argument list read back as that list |
| `Replies.NameThenArgs` | anchor_codegen/src/reply.rs:46-52 | a name not followed by a bracket gives a reply without id whose arguments are the argument list that follows |
| `Replies.NameIdThenArgs` | anchor_codegen/src/reply.rs:52-66 | a name followed by `[id = n]` gives a reply with id `n` |
| `Replies.ReplyRoundTrip` | anchor_codegen/src/reply.rs:46-94 | the tokens of any reply with an id attribute and identifier-named arguments parse back to that reply |
| `Replies.ReplyRoundTripNoId` | anchor_codegen/src/reply.rs:46-94 | the same without the attribute, giving no id |
| `Replies.IdAttrReads` | anchor_codegen/src/reply.rs:61-66 | the tokens `id = n` read back as `n` |
| `Replies.AsWrittenAgreesOnOneAttribute` | anchor_codegen/src/reply.rs:52-75 | with a single attribute the code as written and the corrected parse agree |
| `Replies.ReplyOfAsWritten` | anchor_codegen/src/reply.rs:46-94 | the parse as written agrees with the intended one whenever no bracket follows the name, and names the reply after its leading identifier |
| `Replies.TwoAttributesRejected` | anchor_codegen/src/reply.rs:56-59 | as written, a bracket holding two comma-separated attributes is refused, because the comma is looked for after the bracket instead of inside it |
| `Replies.TwoAttributesIntended` | anchor_codegen/src/reply.rs:56-59 | the corrected parse reads the comma inside the bracket and accepts `r[id = 1, id = 2]`, the later value winning |
| `OutputFormat.FirstKey` | anchor_codegen/src/output.rs:48-54 | a type is found exactly when the text after `%` starts with one of the keys |
| `OutputFormat.AtMostOneKeyMatches` | anchor_codegen/src/output.rs:32-42 | no two keys of the conversion table are prefixes of the same text, so the first match in key order is the only one |
| `OutputFormat.IndexOf` | anchor_codegen/src/output.rs:46 | `find('%')`: the first position holding the character, or none when it does not occur |
| `OutputFormat.Contribution` | anchor_codegen/src/output.rs:48-54 | each `%` contributes at most one argument |
| `OutputFormat.ParseArgsStep` | anchor_codegen/src/output.rs:46-55 | one turn of the loop: what follows the first `%` contributes its type, then the loop continues after that `%` |
| `OutputFormat.MatchKey` | anchor_codegen/src/output.rs:48-54 | the loop over the table in key order finds `KindAt(fmt)` |
| `OutputFormat.ParseArgsLoop` | anchor_codegen/src/output.rs:44-57 | `parse_args` returns one valueless argument per recognised conversion, in order, with its Rust type |
| `OutputFormat.ArityBound` | anchor_codegen/src/output.rs:44-57 | a format never yields more arguments than it has `%` characters |
| `OutputFormat.ParseArgsVisitsEveryPercent` | anchor_codegen/src/output.rs:44-57 | the loop agrees with a left-to-right reading that examines the text after every `%` of the format, including a `%` that follows another |
| `OutputFormat.FormatExample` | anchor_codegen/src/output.rs:44-57 | `"This the %uth test! %*s?"` yields a `u32` and a `&str` argument |
| `OutputFormat.ParseOutput` | anchor_codegen/src/output.rs:59-79 | the parse returns `ParseOutputSpec(ts)`: the format literal, then one `, value` per conversion, then nothing more |
| `OutputFormat.ReadValues` | anchor_codegen/src/output.rs:64-67 | the loop over the arguments reads a comma and a value for each, giving exactly the `ParseValues` reading of the tokens, or the first error it meets |
| `OutputFormat.ParseValuesShape` | anchor_codegen/src/output.rs:64-67 | the value loop succeeds on exactly one `, expr` pair per conversion, each value paired with its conversion's type |
| `OutputFormat.ParseOutputShape` | anchor_codegen/src/output.rs:59-79 | an output parses exactly when a format literal is followed by exactly one value per conversion, and then has no id, keeps the format and carries every value |
| `OutputFormat.ParseValuesHaveValues` | anchor_codegen/src/output.rs:64-67 | every argument of a parsed output has a value |
| `OutputFormat.ClearArgValues` | anchor_codegen/src/output.rs:25-29 | the loop leaves the output with every argument's value cleared and everything else as it was |
| `OutputFormat.ClearedSameShape` | anchor_codegen/src/output.rs:25-29 | two outputs whose arguments agree in type are equal once cleared, and clearing keeps each type |
| `OutputFormat.ClearedIdempotent` | anchor_codegen/src/output.rs:25-29 | clearing twice is clearing once |
| `OutputFormat.SenderFnName` | anchor_codegen/src/output.rs:21-23 | the sender's name is `send_output_` followed by the lower-case hex name of the format: two letters `a`..`p` per byte of its UTF-8 encoding |
| `OutputFormat.SenderFnNameInjective` | anchor_codegen/src/output.rs:21-23 | distinct output formats get distinct senders |
| `StaticStrings.EncodeChar` | anchor_codegen/src/static_string.rs:12 | a character's UTF-8 encoding is one to four bytes, its length announced by its lead byte |
| `StaticStrings.DecodeEncodeChar` | anchor_codegen/src/static_string.rs:12 | decoding a character's UTF-8 bytes gives back its code point |
| `StaticStrings.Utf8` | anchor_codegen/src/static_string.rs:12 | `bytes()` of a string has at least as many bytes as it has characters |
| `StaticStrings.Utf8Injective` | anchor_codegen/src/static_string.rs:12 | distinct strings have distinct UTF-8 bytes |
| `StaticStrings.HexDigit` | anchor_codegen/src/static_string.rs:11-15 | a nibble becomes the letter `base + nibble`, with base `A` (65) or `a` (97) |
| `StaticStrings.HexBytes` | anchor_codegen/src/static_string.rs:12-16 | two letters per byte, each within the sixteen letters from the base |
| `StaticStrings.FormatHexName` | anchor_codegen/src/static_string.rs:10-18 | the loop writes the high and then the low nibble of every byte of the string, in order |
| `StaticStrings.UnHexRoundTrip` | anchor_codegen/src/static_string.rs:11-16 | the byte sequence can be read back from its letters |
| `StaticStrings.HexNameInjective` | anchor_codegen/src/static_string.rs:7-25 | distinct strings get distinct hex names |
| `StaticStrings.CompileName` | anchor_codegen/src/static_string.rs:31-33 | `STATIC_STRING_` followed by two capital letters from `A` to `P` per UTF-8 byte |
| `StaticStrings.CompileNameInjective` | anchor_codegen/src/static_string.rs:31-33 | distinct static strings get distinct constant names, so the generated constants never clash |
| `StaticStrings.ParseStaticString` | anchor_codegen/src/static_string.rs:36-41 | the body parses exactly when it is one string literal, and yields that literal's value |
| `StaticStrings.ParseShutdown` | anchor_codegen/src/static_string.rs:49-56 | the body parses exactly when it is a string literal, a comma and an expression, and yields the message |
| `StringTracker.IdMap` | anchor_codegen/src/lib.rs:205-226 | the ids in the tracker are those of the strings inserted, no others |
| `StringTracker.IdMapAt` | anchor_codegen/src/lib.rs:215-225 | the i-th distinct string inserted has id `STATIC_STRING_MIN + i` (2 + i) |
| `StringTracker.IdMapInjective` | anchor_codegen/src/lib.rs:215-225 | distinct strings have distinct ids, all from 2 up to 2 + the number of strings |
| `StringTracker.FirstInsertions` | anchor_codegen/src/lib.rs:219-225 | the strings kept are distinct and are exactly the strings inserted |
| `StringTracker.InsertIdempotent` | anchor_codegen/src/lib.rs:219-222 | inserting a string a second time changes nothing |
| `StringTracker.StaticStringsTracker.constructor` | anchor_codegen/src/lib.rs:211-217 | the tracker starts empty with next id 2 |
| `StringTracker.StaticStringsTracker.Insert` | anchor_codegen/src/lib.rs:219-225 | a known string leaves the tracker as it was; a new one gets the next id, which then advances by one, failing with the `u16` overflow panic when none is left |
| `MessageMap.Message.WithId` | anchor_codegen/src/lib.rs:174-190 | `set_id` replaces only the id and keeps the kind of message |
| `MessageMap.WithIdLaws` | anchor_codegen/src/lib.rs:174-190 | setting the id a message already has changes nothing, and a second `set_id` overrides the first |
| `MessageMap.StrLessIrreflexive` | anchor_codegen/src/lib.rs:199 | the `BTreeMap` key order on strings is strict |
| `MessageMap.StrLessTransitive` | anchor_codegen/src/lib.rs:199 | the key order is transitive |
| `MessageMap.StrLessTotal` | anchor_codegen/src/lib.rs:199 | any two distinct strings are ordered one way or the other |
| `MessageMap.Keys` | anchor_codegen/src/lib.rs:199 | the keys of the map are exactly the names in its entries |
| `MessageMap.Get` | anchor_codegen/src/lib.rs:473 | a lookup finds nothing exactly when the name is not a key, and otherwise an entry stored under it |
| `MessageMap.GetAt` | anchor_codegen/src/lib.rs:473 | in a sorted map, looking up an entry's name gives that entry |
| `MessageMap.SortedTail` | anchor_codegen/src/lib.rs:199 | the rest of a sorted map is sorted and all its keys come after the first |
| `MessageMap.Put` | anchor_codegen/src/lib.rs:478 | `insert` keeps the map sorted and adds the name to its keys |
| `MessageMap.GetPut` | anchor_codegen/src/lib.rs:478 | after `insert`, the name maps to the new message and every other name maps to what it did before |
| `MessageMap.PutPresent` | anchor_codegen/src/lib.rs:473-478 | inserting a message equal to the one already stored leaves the map unchanged |
| `MessageMap.Remove` | anchor_codegen/src/lib.rs:144 | `remove` keeps the map sorted, drops the name from its keys and never grows the map |
| `MessageMap.GetRemove` | anchor_codegen/src/lib.rs:144 | after `remove`, the name maps to nothing and every other name maps to what it did before |
| `IdAssign.UsedIds` | anchor_codegen/src/lib.rs:536-541 | the used ids are exactly the ids the messages already carry |
| `IdAssign.FreeFrom` | anchor_codegen/src/lib.rs:549-551 | the first id from the counter on that is not used, with every id skipped used; the add-overflow panic exactly when every id from the counter up to 255 is used |
| `IdAssign.AssignOne` | anchor_codegen/src/lib.rs:544-555 | `Too many commands` when the counter is 255; otherwise a free id at least the counter and below 255, the first one that is free, failing exactly when all ids from the counter up to 254 are used |
| `IdAssign.AssignFrom` | anchor_codegen/src/lib.rs:557-561 | the pass returns a table as long as its input |
| `IdAssign.AssignFromIncreasing` | anchor_codegen/src/lib.rs:543-561 | fresh ids increase along the table |
| `IdAssign.AssignFromNoGaps` | anchor_codegen/src/lib.rs:543-561 | names, order and kinds stay, messages with an id are kept, every fresh id is new, below 255 and at least the counter, and every id a fresh message skipped was pre-assigned or given to an earlier fresh message |
| `IdAssign.AssignIdsSpec` | anchor_codegen/src/lib.rs:535-562 | after a pass that succeeds, every message has an id, pre-assigned ids are kept, and fresh ids avoid them, increase in name order and leave no gaps |
| `IdAssign.AssignFromErrors` | anchor_codegen/src/lib.rs:546-551 | the pass fails only with one of its two panics, and only when some message needs an id |
| `IdAssign.AllAssignedUnchanged` | anchor_codegen/src/lib.rs:557-561 | a table whose messages all carry ids is left exactly as it is |
| `Enumerations.Count` | anchor_codegen/src/enumeration.rs:366-371 | a plain variant counts one, a range counts its count |
| `Enumerations.SumCountsSnoc` | anchor_codegen/src/enumeration.rs:183-190 | the running total grows by each variant's count |
| `Enumerations.NumberedFrom` | anchor_codegen/src/enumeration.rs:183-190 | one numbered entry per variant |
| `Enumerations.NumberedFromAt` | anchor_codegen/src/enumeration.rs:183-190 | variant `k` starts at the starting total plus the counts of the variants before it |
| `Enumerations.NumberedAt` | anchor_codegen/src/enumeration.rs:183-190 | variant `k` starts at the sum of the counts of earlier variants, with its own count |
| `Enumerations.Contiguous` | anchor_codegen/src/enumeration.rs:183-190 | each variant starts where the previous one ended |
| `Enumerations.NumberedVariants` | anchor_codegen/src/enumeration.rs:183-190 | the `scan` loop yields every variant with its start and count |
| `Enumerations.LastEndsAtTotal` | anchor_codegen/src/enumeration.rs:192-196 | the last variant ends at the total count |
| `Enumerations.MaxVariant` | anchor_codegen/src/enumeration.rs:192-196 | `max_variant` is the total count minus one, 0 without variants, and is an overflow panic only when every variant is an empty range |
| `Enumerations.ValidInputTypes` | anchor_codegen/src/enumeration.rs:198-204 | `u8` is offered exactly when the largest number is at most 255, `u16` exactly when it is at most 65535, the wider types always, and every type offered holds the largest number |
| `Enumerations.DictionaryName` | anchor_codegen/src/enumeration.rs:206-211 | the `name` option when given, else the enumeration's identifier |
| `Enumerations.SnakeCaseLoop` | anchor_codegen/src/enumeration.rs:275-284 | the `char_indices` loop computes `Snake` |
| `Enumerations.SnakeShape` | anchor_codegen/src/enumeration.rs:275-284 | the result has no upper-case letter and one `_` more per upper-case letter after the first character |
| `Enumerations.SnakeOfLower` | anchor_codegen/src/enumeration.rs:275-284 | text without upper-case letters is left as it is |
| `Enumerations.SnakeIdempotent` | anchor_codegen/src/enumeration.rs:275-284 | applying `snake_case` twice is applying it once |
| `Enumerations.SnakeWithoutHumps` | anchor_codegen/src/enumeration.rs:275-284 | with no upper-case letter after the first, `snake_case` is lower-casing |
| `Enumerations.Apply` | anchor_codegen/src/enumeration.rs:270-287 | each rename format keeps, lower-cases, upper-cases or snake-cases the identifier |
| `Enumerations.FromStr` | anchor_codegen/src/enumeration.rs:295-306 | only `lowercase`, `UPPERCASE` and `snake_case` are accepted, each naming its own format |
| `Enumerations.FromStrRoundTrip` | anchor_codegen/src/enumeration.rs:295-306 | every format other than the default is reached from its spelling |
| `Enumerations.Name` | anchor_codegen/src/enumeration.rs:380-386 | the variant's explicit rename, else the enumeration's format applied to its identifier or range prefix |
| `Enumerations.ToDictionary` | anchor_codegen/src/enumeration.rs:213-235 | the loop builds `DictionaryOf` the numbered variants |
| `Enumerations.DictionaryEntries` | anchor_codegen/src/enumeration.rs:213-235 | a name is listed exactly when some enabled variant has it, with the start of the last such variant (a number, or a range with its count); disabled variants are left out but keep their numbers |
| `Enumerations.TryArms` | anchor_codegen/src/enumeration.rs:121-150 | the `TryFrom` arms of a variant are its consecutive numbers from its start, one per variant it declares |
| `Enumerations.ToArms` | anchor_codegen/src/enumeration.rs:152-181 | the corrected `From` arms pair each identifier with the number `TryFrom` gives it |
| `Enumerations.ArmBounds` | anchor_codegen/src/enumeration.rs:121-150 | every number lies between the starting total and the starting total plus the total count |
| `Enumerations.ArmNumbersDistinct` | anchor_codegen/src/enumeration.rs:121-150 | no two arms of `TryFrom` share a number |
| `Enumerations.LookupNumberAt` | anchor_codegen/src/enumeration.rs:51-54 | with distinct numbers, the `match` on an arm's number gives that arm's variant |
| `Enumerations.LookupIdentAt` | anchor_codegen/src/enumeration.rs:65-67 | with distinct identifiers, the `match` on an arm's variant gives that arm's number |
| `Enumerations.LookupNumberFound` | anchor_codegen/src/enumeration.rs:51-54 | a number is accepted only by an arm with that number |
| `Enumerations.LookupIdentFound` | anchor_codegen/src/enumeration.rs:65-67 | a variant converts only through an arm naming it |
| `Enumerations.SameArms` | anchor_codegen/src/enumeration.rs:121-181 | with the correction, both conversions are built from the same arms |
| `Enumerations.ConversionsRoundTrip` | anchor_codegen/src/enumeration.rs:121-181 | every number the generated `TryFrom` accepts comes back unchanged from `From`, and every enabled variant `From` numbers comes back from `TryFrom` |
| `Enumerations.AcceptedWithinMax` | anchor_codegen/src/enumeration.rs:121-150 | every number `TryFrom` accepts is at most `max_variant` |
| `Enumerations.TryFromAccepts` | anchor_codegen/src/enumeration.rs:121-150 | the generated `TryFrom` accepts a number exactly when it lies in the range of an enabled variant |
| `Enumerations.AcceptedFrom` | anchor_codegen/src/enumeration.rs:121-150 | the arms of variants numbered from any start accept exactly the numbers in the ranges of the enabled ones |
| `Enumerations.AllEnabledAcceptFrom` | anchor_codegen/src/enumeration.rs:121-150 | with no variant disabled, the arms accept exactly the numbers from the start up to the start plus the total count |
| `Enumerations.AllEnabledRoundTrip` | testjig/src/main.rs:119-129 | with no variant disabled and distinct identifiers, `TryFrom` accepts exactly `0..=max_variant`, so the loop never hits `Can't map pin`, and `From` gives each accepted number back, so it never hits `Can't reverse map pin` |
| `Enumerations.RangeOffsetBreaksRoundTrip` | anchor_codegen/src/enumeration.rs:165-176 | as written, `Range(P, 1, 1)` has `TryFrom(0) == P1` but `From(P1) == 1` |
| `Enumerations.ToArmsAsWritten` | anchor_codegen/src/enumeration.rs:152-181 | as written, `From` numbers the variants a range declares from `start + identStart`, and agrees with the intended arms exactly when the range is disabled, empty or starts its identifiers at 0 |
| `Enumerations.AsWrittenAgreesFromZero` | anchor_codegen/src/enumeration.rs:152-181 | when every range starts its identifiers at 0, the `From` arms as written are the intended ones |
| `Processing.AddMessageTo` | anchor_codegen/src/lib.rs:472-479 | panics with `A command named {name} already exists` exactly when the name holds a different message; otherwise the map stays sorted, gains the name, maps it to the message and keeps every other entry, and a repeated equal message leaves it unchanged |
| `Processing.PrefixFirst` | anchor_codegen/src/lib.rs:488-529 | a name sorts before any longer name it begins |
| `Processing.AddIdentifyResponseOnEmpty` | anchor_codegen/src/lib.rs:489-507 | on the empty map `identify_response` is added as the only entry |
| `Processing.AddBeforeSingle` | anchor_codegen/src/lib.rs:472-479 | a name sorting before the one key of a map is added in front of it |
| `Processing.AddIdentifyAfterResponse` | anchor_codegen/src/lib.rs:509-528 | `identify` then goes in front of `identify_response` |
| `Processing.AddIdentifyOnEmpty` | anchor_codegen/src/lib.rs:488-529 | on the empty map `build` starts from, `add_identify` cannot panic and leaves `identify` with id 1 and `identify_response` with id 0 |
| `Processing.AddIdentifyFails` | anchor_codegen/src/lib.rs:488-529 | `add_identify` panics exactly when `identify` or `identify_response` already holds a different message |
| `Processing.AddIdentifyEntries` | anchor_codegen/src/lib.rs:488-529 | otherwise the map stays sorted, gains the two names and holds their fixed messages, every other entry unchanged |
| `Processing.RepliesDifferingInValues` | anchor_codegen/src/lib.rs:422-427 | a reply declared twice with argument values that differ is accepted, because both are stored with values cleared |
| `Processing.Skipped` | anchor_codegen/src/lib.rs:143-145 | removing the skipped names keeps the map sorted |
| `Processing.GetSkipped` | anchor_codegen/src/lib.rs:143-145 | a skipped name is gone, whatever kind of message it named, and every other name keeps its message |
| `Processing.FinalTablesFails` | anchor_codegen/src/lib.rs:565-583 | the dictionary loop panics exactly when some command or reply has an argument type with no Klipper format |
| `Processing.FinalTablesErrPersists` | anchor_codegen/src/lib.rs:565-583 | once the loop has panicked on a message, the whole loop ends in that panic |
| `Processing.FieldsStartWithSpace` | anchor_codegen/src/msg_desc.rs:29-36 | the fields of a descriptor are empty or begin with a space |
| `Processing.DescriptorsDistinctOrdered` | anchor_codegen/src/lib.rs:567-576 | a name without a space and one no longer than it that differs from it give different descriptors |
| `Processing.DescriptorsDistinct` | anchor_codegen/src/lib.rs:567-576 | messages with different names that contain no space get different descriptors, so no dictionary entry overwrites another |
| `Processing.KeysAt` | anchor_codegen/src/lib.rs:565 | in a sorted map keyed by name, distinct positions hold distinct keys, each the message's own name |
| `Processing.EntryKeeps` | anchor_codegen/src/lib.rs:567-581 | adding one message's entry keeps the entry of any message with a different key |
| `Processing.FinalTablesListAll` | anchor_codegen/src/lib.rs:565-583 | every message ends up listed in its section under its descriptor or format with its id |
| `Processing.FinalTablesOnlyMessages` | anchor_codegen/src/lib.rs:565-583 | every dictionary entry was there before or comes from some message |
| `Processing.FinalTablesSpec` | anchor_codegen/src/lib.rs:564-583 | starting from an empty dictionary, each command, reply and output is listed with its id, and nothing else is |
| `Processing.StaticStringEnum` | anchor_codegen/src/lib.rs:584-591 | the `static_string_id` enumeration lists exactly the tracked strings, each with its id as a number |
| `Processing.AddEnumTo` | anchor_codegen/src/lib.rs:481-486 | panics with `An enumeration named {name} already exists` exactly when a message has that name; otherwise the enumeration is stored under the name and the others are kept |
| `Processing.NextFreeId` | anchor_codegen/src/lib.rs:544-555 | the loop of the `assign_id` closure computes `AssignOne` |
| `Processing.AssignLoopEntry` | anchor_codegen/src/lib.rs:543-557 | before the second loop, the whole pass is the pass from the first message with counter 0 |
| `Processing.AssignStepKept` | anchor_codegen/src/lib.rs:557-561 | a message with an id is kept and the loop continues with the same counter |
| `Processing.AssignStepFresh` | anchor_codegen/src/lib.rs:557-561 | a message without an id gets the next free id, which becomes used, and the counter moves past it |
| `Processing.AssignStepFails` | anchor_codegen/src/lib.rs:544-555 | when no id is left for a message, the whole pass panics the same way |
| `Processing.PrefixedNil` | anchor_codegen/src/lib.rs:557-561 | nothing in front leaves the result as it is |
| `Processing.PrefixedAssoc` | anchor_codegen/src/lib.rs:557-561 | putting in front one entry at a time is putting in front their sequence |
| `Processing.Processor.constructor` | anchor_codegen/src/lib.rs:110-124 | the processor starts with no messages, an empty dictionary and an empty tracker |
| `Processing.Processor.AddMessage` | anchor_codegen/src/lib.rs:472-479 | the map becomes `AddMessageTo` of the old one, or the clash panic |
| `Processing.Processor.AddEnum` | anchor_codegen/src/lib.rs:481-486 | the enumerations become `AddEnumTo` of the old ones, or the clash panic |
| `Processing.Processor.AddIdentify` | anchor_codegen/src/lib.rs:488-529 | the map becomes `AddIdentifyTo` of the old one |
| `Processing.Processor.ProcessEnumeration` | anchor_codegen/src/lib.rs:374-378 | the enumeration's dictionary form is added under its dictionary name, refused when a message has that name |
| `Processing.Processor.ProcessStaticString` | anchor_codegen/src/lib.rs:380-384 | a parse error is returned with the tracker untouched; otherwise the string is inserted |
| `Processing.Processor.ProcessShutdown` | anchor_codegen/src/lib.rs:386-411 | the message is inserted into the tracker and the `shutdown` reply, with `clock: u32` and `static_string_id: u16`, is added only when the name is not yet taken |
| `Processing.Processor.ProcessCommand` | anchor_codegen/src/lib.rs:413-420 | a `syn` error is a `Parse` failure and an `abort!` a `Panic`, both leaving the map as it was; a parsed command records the current module and is added only when its `cfg` attributes hold |
| `Processing.Processor.ProcessReply` | anchor_codegen/src/lib.rs:422-427 | the reply parsed as written is added under its name with its values cleared; a parse error changes nothing |
| `Processing.Processor.ProcessOutput` | anchor_codegen/src/lib.rs:429-434 | the parsed output is added under its format with its values cleared; a parse error changes nothing |
| `Processing.Processor.SkipCommands` | anchor_codegen/src/lib.rs:143-145 | the loop leaves the map with the skipped names removed |
| `Processing.Processor.CollectUsedIds` | anchor_codegen/src/lib.rs:536-541 | the first loop collects exactly the ids the messages already carry |
| `Processing.Processor.AssignCommandIds` | anchor_codegen/src/lib.rs:535-562 | both loops together succeed exactly when `AssignIds` does and then leave the map it describes, or end in the same panic with the map unchanged; the processor invariant holds either way |
| `Processing.AssignLoop` | anchor_codegen/src/lib.rs:544-561 | the `values_mut` loop with `assign_id` returns exactly `AssignIds` of the table: the same table with fresh ids filled in, or the first panic |
| `Processing.Processor.FinalizeDictionary` | anchor_codegen/src/lib.rs:564-592 | the dictionary sections become `FinalTables` of the old ones, or its panic, and the enumerations gain `static_string_id` |
| `Processing.Processor.FillSections` | anchor_codegen/src/lib.rs:565-583 | the loop over the messages succeeds exactly when `FinalTables` of the old sections does, leaves the three sections it describes, and otherwise stops with its panic |
| `Processing.StaticStringEnumLoop` | anchor_codegen/src/lib.rs:584-587 | the loop over the tracked strings builds exactly the `StaticStringEnum` map: one entry per string, holding its id as a number |
| `Processing.Processor.WriteMessageDispatcher` | anchor_codegen/src/lib.rs:644-670 | the 256-slot loop, panicking on a slot that already holds a handler and filling only command slots, computes the table as written, `DispatchTable` |
| `Generated.FillFrom` | anchor_codegen/src/lib.rs:647-658 | the loop over the messages keeps 256 slots |
| `Generated.EmptySlots` | anchor_codegen/src/lib.rs:645 | `vec![None; 256]`: 256 empty slots |
| `Generated.ShiftTable` | anchor_codegen/src/lib.rs:647 | the messages after the first keep their ids |
| `Generated.FillFromFails` | anchor_codegen/src/lib.rs:647-658 | the loop panics exactly when some message finds its slot taken |
| `Generated.DispatchTableFails` | anchor_codegen/src/lib.rs:644-658 | `Multiple entries for command ID` is raised exactly when a message shares its id with a command earlier in name order; two replies or outputs sharing an id, or a reply before a command, pass |
| `Generated.FillFromContents` | anchor_codegen/src/lib.rs:647-658 | each command's slot names its handler, and a slot is filled only before the loop or by a command with that id |
| `Generated.FillFromKeeps` | anchor_codegen/src/lib.rs:652-657 | a slot filled before the loop stays as it is |
| `Generated.DispatchTable` | anchor_codegen/src/lib.rs:644-669 | the table as written has 256 slots; the generated `dispatch` has an arm for exactly the ids commands hold, each naming that command's handler |
| `Generated.ReplyBeforeCommandPasses` | anchor_codegen/src/lib.rs:649-657 | as written, a reply with id 1 listed before a command with id 1 passes the duplicate check |
| `Generated.FillChecked` | anchor_codegen/src/lib.rs:647-658 | the loop with the duplicate check counting every message keeps 256 slots |
| `Generated.FillCheckedFails` | anchor_codegen/src/lib.rs:647-658 | the checked loop panics exactly when a message repeats an id taken before it |
| `Generated.FillCheckedAgrees` | anchor_codegen/src/lib.rs:647-658 | when the checked loop succeeds it builds the same table as the loop as written |
| `Generated.DispatchTableCheckedSpec` | anchor_codegen/src/lib.rs:644-658 | the checked table panics exactly when two messages share an id, and otherwise is the table as written |
| `Generated.SharedIdRefused` | anchor_codegen/src/lib.rs:644-658 | the checked table refuses the reply and command sharing id 1 |
| `Generated.Dispatch` | anchor_codegen/src/lib.rs:662-669 | `dispatch` finds a handler exactly when the command number has an arm, and otherwise returns `ReadError` |
| `Generated.ReadArgs` | anchor_codegen/src/lib.rs:679-688 | reading succeeds with one value per argument |
| `Generated.RunHandler` | anchor_codegen/src/lib.rs:690-700 | the handler calls its target, passing `context` only when the command asks for it, exactly when every argument was read, and otherwise returns the read error |
| `Generated.ReadArgsRoundTrip` | anchor_codegen/src/lib.rs:679-688 | arguments written in order are read back in order, leaving what followed |
| `Generated.HandlerRoundTrip` | anchor_codegen/src/lib.rs:672-701 | handed a command's encoded arguments, its handler calls the target with exactly those values |
| `Generated.HandlerNeedsData` | anchor_codegen/src/lib.rs:685 | a handler with arguments fails on an empty frame |
| `Generated.SenderAgreesBelow96` | anchor_codegen/src/lib.rs:731-741 | for ids below 96 the raw id byte the sender writes is the VLQ encoding of the id |
| `Generated.RawIdMisread` | anchor_codegen/src/lib.rs:737 | as written, id 100 written raw is read back by the VLQ decoder as 2^32 - 28, not 100 |
| `Generated.SenderPayloadAsWritten` | anchor_codegen/src/lib.rs:731-741 | as written, a sender's payload is the id as one raw byte followed by the encoded arguments |
| `Generated.SenderRoundTrip` | anchor_codegen/src/lib.rs:731-741 | with the id written as VLQ, the receiver reads back the id and then the arguments |
| `Generated.HandleIdentifyAsWritten` | anchor_codegen/src/lib.rs:808-812 | as written, a reply that does not panic carries at most `count` bytes |
| `Generated.HandleIdentify` | anchor_codegen/src/lib.rs:808-812 | without overflow, the reply carries the offset clamped to the dictionary's length and the bytes from there, at most `count` of them |
| `Generated.IdentifyAgreesWithoutOverflow` | anchor_codegen/src/lib.rs:808-812 | while `offset + count` fits in 32 bits both agree |
| `Generated.IdentifyWrapPanics` | anchor_codegen/src/lib.rs:809 | as written, `offset = 1, count = u32::MAX` wraps the end to 0 and the slice panics |
| `Generated.IdentifyChunksConcatenate` | anchor_codegen/src/lib.rs:808-812 | two requests for consecutive ranges return, together, the bytes of one request for both |
| `Generated.FetchReassembles` | anchor_codegen/src/lib.rs:808-812 | a host asking, from a given offset, for the next chunk at the length received so far gets the rest of the dictionary byte for byte |
| `Generated.FetchAll` | anchor_codegen/src/lib.rs:802-812 | asking from offset 0 in chunks of any positive size reassembles the whole compressed dictionary |
| `Clock.InstantShort.After` | rp2040_demo/src/clock.rs:34-36 | `a.after(b)` holds exactly when `b - a`, taken modulo 2^32, is at least 2^31, the top-bit mask read as a comparison |
| `Clock.New` | rp2040_demo/src/clock.rs:30-32 | `From<InstantShort> for u32` gives back the count `new` was given |
| `Clock.Ticks` | rp2040_demo/src/clock.rs:58-62 | `From` gives the count the instant is made of, so an instant is determined by its count |
| `Clock.InstantShort.Add` | rp2040_demo/src/clock.rs:45-50 | the wrapped sum is `rhs` ticks after the instant: wrapping subtraction gives `rhs` back |
| `Clock.AfterIrreflexive` | rp2040_demo/src/clock.rs:34-36 | no instant is after itself |
| `Clock.AfterBothWays` | rp2040_demo/src/clock.rs:34-36 | two instants are each after the other exactly when they lie 2^31 ticks apart |
| `Clock.AddAfter` | rp2040_demo/src/clock.rs:34-50 | `t + d` is after `t` exactly when `0 < d <= 2^31`, and `t` is after `t + d` exactly when `d >= 2^31`, so for `0 < d < 2^31` only the first holds |
| `Clock.AddTwice` | rp2040_demo/src/clock.rs:45-50 | adding twice is adding the wrapped sum |
| `Clock.InstantShortVar.constructor` | rp2040_demo/src/clock.rs:26-27 | the variable holds the instant it is given |
| `Clock.InstantShortVar.AddAssign` | rp2040_demo/src/clock.rs:39-43 | `+=` stores the instant `+` computes, the ticks advanced modulo 2^32 |
| `Clock.RpFull` | rp2040_demo/src/clock.rs:18-23 | the bitwise or of `high << 32` and `low` is `high * 2^32 + low` |
| `Clock.EspFull` | esp32c3_demo/src/clock.rs:28-31 | the 54-bit mask keeps the counter modulo 2^54 |
| `Clock.UptimeOf` | rp2040_demo/src/clock.rs:76-84 | `get_uptime` splits `c` into `high` and `clock` with `high * 2^32 + clock == c`, `clock` being `c` modulo 2^32 |
| `Clock.RpUptimeRoundTrip` | rp2040_demo/src/clock.rs:18-23 | splitting the composed count gives back the two timer halves |
| `Clock.EspUptimeBound` | esp32c3_demo/src/clock.rs:84-92 | the reported `high` is below 2^22, and the halves recombine to the counter modulo 2^54 |
| `DemoCommands.ConfigReplyOf` | rp2040_demo/src/commands.rs:10-20 | the `config` reply says configured exactly when a checksum is stored, reports it or 0, never shut down, no moves queued |
| `DemoCommands.ConfigReplyRoundTrip` | rp2040_demo/src/commands.rs:10-20 | the host can read back from the reply exactly what is stored |
| `DemoCommands.ConfigReplyInjective` | rp2040_demo/src/commands.rs:10-20 | distinct stored states give distinct replies |
| `DemoCommands.State.constructor` | rp2040_demo/src/commands.rs:10-30 | the board starts with no checksum stored |
| `DemoCommands.State.GetConfig` | rp2040_demo/src/commands.rs:10-20 | `get_config` returns the reply for the stored checksum and changes nothing |
| `DemoCommands.State.ConfigReset` | rp2040_demo/src/commands.rs:22-25 | `config_reset` forgets the checksum, after which `get_config` reports the board unconfigured |
| `DemoCommands.State.FinalizeConfig` | rp2040_demo/src/commands.rs:27-30 | `finalize_config(crc)` stores `crc`, after which `get_config` reports it |

## Left out

- **Syn, quote and build I/O.** The `Visit` traversal and the reading of
  source files and submodules are left out (anchor_codegen/src/lib.rs:257-372).
  So are writing `_anchor_config.rs` and emitting token streams. The model
  starts from the parsed declarations and the message map they produce.
- **`process_constant` and `process_config_generate`.** These fill the
  `config` section and the transport options of the output. They are not
  part of this model. anchor_codegen/src/generate.rs is not part of this model
  either.
- **The syntax of the enumeration macro.** This is the parse of the
  `#[klipper_enumeration]` item and of its options
  (anchor_codegen/src/enumeration.rs:238-259, 314-350, 396-453). The model
  starts from the parsed enumeration.
- **Enumeration text rendering.** The `to_token_stream` text of the
  enumeration and its variants is left out. The model keeps the match arms.
- **Dictionary serialisation.** JSON encoding and zlib compression in
  `Dictionary::to_compressed` are foreign libraries, so `DATA` is an arbitrary
  byte sequence of fewer than 2^32 bytes.
- **Unicode case mapping.** The lower- and upper-case rename formats are
  modelled for ASCII identifiers only.
- **Hardware timer reads** (`low`, the register reads inside `full`,
  `start_timer`, `get_clock`) are left out. The counter values are parameters.
- **Board glue.** The USB, RTIC and critical-section glue of the demo boards
  is left out. So are their `main` files and the test jig.
- **Concurrency.** The atomics of `Transport` are used from one context only,
  so they are plain fields. Their memory orderings are not modelled.
- **The no-op handlers.** `DemoCommands.DebugNop`, `DemoCommands.EmergencyStop`
  and `DemoCommands.AllocateOids` have no contract. They modify nothing and
  return nothing, which is the whole of what the source does, so they have no
  row.
- `Generated.Dispatch`: the command number is the `u16` that the transport
  reads and that `Config::dispatch` takes (anchor/src/transport.rs:33-35). The
  generated function declares its parameter as `u8`, and that narrower
  parameter type is not modelled.
- `Processing.AddEnumTo`: a second enumeration with the same name silently
  replaces the first, as the code does. Only a clash with a message name is
  refused.
- `OutputBuffers.VecOutput.Update`: requires the cursor to lie inside the
  written bytes. The source panics on an index out of bounds instead, and the
  model does not model that panic.
- `OutputBuffers.VecOutput.DataSince`: requires the cursor to be at most the
  length. The source panics in the slice `&self[cursor..]` instead
  (anchor/src/output_buffer.rs:97), and the model does not model that panic.
  `encode_frame` takes its cursor from `cur_position`, which never exceeds the
  length, and a vector only grows (anchor/src/transport.rs:161-168). So no
  cursor the transport passes is excluded.
- **State after a firmware panic.** A method that panics returns `ok` false.
  Its contract says what was sent before the panic. For `Output` it also says
  the buffer is unchanged. Beyond that, the transport's fields after a panic
  are not described, because the firmware does not continue past one.
- `Processing.Processor.ProcessStaticString` and
  `Processing.Processor.ProcessShutdown`: the processor invariant is promised
  after every outcome but a build panic. When `next_id += 1` overflows
  (anchor_codegen/src/lib.rs:224), the tracker has already stored the new string
  (lib.rs:223), so its ids no longer match the insertion order. The build
  script stops at that panic.
- `InputBuffers.VecInputBuffer.Pop`: requires the count to be at most the
  length. The source panics in `drain` instead, and the model does not model
  that panic.
- **Failed reads.** A failed read is not promised to leave the cursor where it
  was. Only reading from an empty cursor does so. A multi-byte VLQ that fails,
  or a byte slice shorter than its length prefix, consumes what it read, as the
  code does, although the trait's documentation says otherwise.

## Findings

| source | as written | input that shows it | evidently intended | confidence | as-written member | corrected member |
|---|---|---|---|---|---|---|
| anchor_codegen/src/enumeration.rs:165-176 | `From<enum>` maps `prefix{i}` to `i + start`, where `i` already includes the range's first identifier index | `Range(P, 1, 1)` as the only variant: number 0 converts to `P1`, and `P1` converts back to 1 | `prefix{i}` maps to `i - ident_start + start`, the number that `TryFrom` gives it, so both conversions round-trip | not executed | `Enumerations.ToArmsAsWritten`, `Enumerations.RangeOffsetBreaksRoundTrip` | `Enumerations.ToArms`, `Enumerations.ConversionsRoundTrip` |
| anchor_codegen/src/lib.rs:808-812 | `offset + count` is computed in `u32` | `identify` with offset 1 and count `u32::MAX` on a dictionary of at least 2 bytes: the end wraps to 0 and the slice `DATA[1..0]` panics | the end is the sum taken without overflow, clamped to the dictionary's length | not executed | `Generated.HandleIdentifyAsWritten`, `Generated.IdentifyWrapPanics` | `Generated.HandleIdentify`, `Generated.IdentifyChunksConcatenate` |
| anchor_codegen/src/reply.rs:56-59 | the comma between two attributes is read from the stream after the bracket, not from inside it | `r[id = 1, id = 2]` is refused | the comma is read inside the bracket, so several attributes are accepted | not executed | `Replies.ReplyOfAsWritten`, `Replies.TwoAttributesRejected` | `Replies.ReplyOf`, `Replies.TwoAttributesIntended` |
| anchor_codegen/src/lib.rs:737, 779 | reply and output senders write their message id as one raw byte | id 100: the receiver's VLQ decoder reads the byte 0x64 as 2^32 - 28 | the id is written as a VLQ integer, as the receiver reads every message id | not executed | `Generated.SenderPayloadAsWritten`, `Generated.RawIdMisread` | `Generated.SenderPayload`, `Generated.SenderRoundTrip` |
| anchor/src/output_buffer.rs:52-57 | `output` clamps the length to the free space and then calls `copy_from_slice` with the whole `buf`, which panics when the lengths differ | three bytes into a 2-byte `ScratchOutput`; in the transport, a reply of more than 59 bytes panics in `encode_frame` | what does not fit is dropped, the truncation the `Writable` documentation promises (anchor/src/encoding.rs:46-48) | not executed | `OutputBuffers.ScratchOutput.Output`, `OutputBuffers.OverlongOutput` | `OutputBuffers.ScratchOutput.OutputTruncating`, `OutputBuffers.TruncatedTwice` |
| anchor_codegen/src/lib.rs:649-657 | only command slots are filled, so the duplicate check sees only an id already held by a command | a reply `aaa` with id 1 and the command `identify` with id 1: no panic, and the dictionary lists both under id 1 | every message's id is recorded, so any two messages sharing an id are refused | not executed | `Generated.DispatchTable`, `Generated.ReplyBeforeCommandPasses` | `Generated.DispatchTableChecked`, `Generated.DispatchTableCheckedSpec`, `Generated.SharedIdRefused` |
