# R2CP verification

A model of the R2CP robot control protocol and of the WebSocket stack it runs over, with
proofs. It follows the program's own structure, file by file:

- `Masking`, `MaskRoutines`, `Frame`, `Utf8`: the frame codec of `frame.hpp` and the
  automaton of `utf8_validator.hpp`. Grammar, header layout and masking follow section 4
  of RFC 3629 and sections 5.2 and 5.3 of RFC 6455.
- `OneShot`, `Hybi13`, `Reassembly`, `Sender`, `Fragments`: the frame engine of `hybi13.hpp`.
  `OneShot` is a pure parser of a whole stream, `Hybi13` the resumable processor that reads
  chunks, `Reassembly` says what a stream delivers in terms of its frames, `Sender` encodes,
  and `Fragments` is about text in several frames.
- `ConnectionSpec`, `ConnectionRuns`, `ServerConnection`: the write side and the lifecycle of
  `connection_impl.hpp` in the server role. The specification is a step system in which
  asynchronous operations are pending until their completion is chosen; the class has the
  fields and handlers of the original and refines it. `ConnectionStream` puts it together with
  the frame engine, `CloseHandshake` with the codes and reasons of `CloseCodes`.
- `R2CPDictionary`, `R2CPSpec`, `R2CPFormat`, `R2CPTheorems`, `R2CPParser`, `R2CPSizes`: the
  packet parser with its two passes over a stack of 32-bit offsets, the wire format, and
  the sizes computed before a packet is written.
- `Base64`, `Base64Codec`, `PacketQueue`: the codec and the queue between the threads.
- `EndToEnd`: commands to packets to base64 to frames to chunks, and back through the queue.
- `Hybi00`, `Md5`, `Sha1`, `Blocks`, `WordOps`: the older draft's framing and the two hashes.
- `WireBytes`, `R2CPBytes`, `ConnectionLaws`: frames and packets by their bytes, and every event of
  a connection field by field, in numbers and not through the constants of the other modules.
- `Bytes`: machine integers, byte order, and streams cut into chunks.

## Conventions

Bytes and machine words are ranges of `int` and every wrap-around is written out; `&`, `|`,
shifts and `^` appear as the divisions, remainders and bit-by-bit functions they are equal to.
The machine is little-endian with 64-bit words, and permessage-deflate is disabled as in
`config/core.hpp`. An exception or an error code is a result. The masking key a client draws
at random is a parameter. Code that updates in place is a class or a method over
arrays, proved against a function of its input; the lemmas are about that function.

## What the proofs say of the code

Some statements one would expect do not hold of the code as it is. For each there is the
exact condition under which it holds, and a case in which it does not.

- The first pass over a packet can accept what the second throws on: exactly when the body is
  empty, or a parameter size makes a 32-bit offset wrap inside a valid parameterized command
  (`R2CPTheorems.ThrowsExactly`; witnesses `R2CPTheorems.EmptyBodyAccepted` and
  `R2CPTheorems.AcceptedButThrows`).
- The precomputed packet size is the body length exactly when that has 32 bits and no
  parameterized command is without parameters (`R2CPSizes.PrecomputePacketSize`; witness
  `R2CPSizes.MiscountedPacket`).
- The queue never pops from empty exactly with one consumer at most, and keeps its maximum
  exactly with one producer at most, but for the cases where there is nothing to queue
  (`PacketQueue.NeverEmptyPopsIff`, `PacketQueue.KeepsMaximumIff`). Its check lets a packet pass
  that does not fit exactly when the 32-bit sum wraps (`PacketQueue.AdmittedBeyondMaximum`;
  witness `PacketQueue.LongPacketAdmitted`).
- The size check of a continuation frame is exact unless its 64-bit sum wraps
  (`Reassembly.SizeCheckExact`; witnesses `Reassembly.SizeCheckWraps`,
  `Fragments.LimitPassedInStream`).
- Text in several frames is delivered exactly when it can be completed to well-formed UTF-8,
  so also when it ends inside a character (`Fragments.FragmentedTextDelivered`; witness
  `Sender.FragmentedTextMayEndMidCharacter`); text in one frame exactly when it is well-formed
  (`Reassembly.SingleFrameText`).
- The dictionary puts the image parameters into the set of the motor duty cycle, without the
  image height, and shares that set between three commands. So an image command that gives
  its height is accepted by the first pass and dropped by the second
  (`R2CPTheorems.ImageWithHeightDropped`); a command comes back exactly when the dictionary has
  all its parameters (`R2CPTheorems.OneCommand`).
- The older draft's own close frame is an error to its receiver exactly between messages
  (`Hybi00.CloseIsViolation`).
- A close with a long reason is an error to the peer exactly when the cut at 123 bytes falls
  inside a character (`CloseCodes.CutReason`, `CloseHandshake.CloseArrives`; witness
  `CloseCodes.CutInside`).
- SHA-1 keeps 32 bits of the length: its padding is the standard's exactly below 2^29 bytes
  (`Sha1.PaddedAsStandard`).

## Model

| member | source | states |
|---|---|---|
| Masking.MaskedExactly | WebSocketPP/websocketpp/frame.hpp:645-655 | A string is the masked payload exactly when it has its length and byte i is exclusive-ored with key byte (n + i) mod 4 |
| Masking.MaskedTwice | WebSocketPP/websocketpp/frame.hpp:645-655 | Masking twice with one key and offset is the identity, for every buffer |
| Masking.MaskedConcat | WebSocketPP/websocketpp/frame.hpp:830-841 | Masking a piece and then the rest at the offset reached equals masking the concatenation |
| Masking.CircshiftPrepared | WebSocketPP/websocketpp/frame.hpp:612-623 | Shifting a prepared 64-bit key by any number of bytes (mod 4) gives the prepared key of the payload that far on |
| Masking.CircshiftRotates | WebSocketPP/websocketpp/frame.hpp:612-623 | The shift and or of the machine word is a rotation of its eight little-endian bytes |
| Masking.PreparedTwice | WebSocketPP/websocketpp/frame.hpp:595-604 | On a 64-bit machine a prepared key holds the four key bytes twice |
| MaskRoutines.ByteMask | WebSocketPP/websocketpp/frame.hpp:645-679 | The byte loop with its running key index computes exactly the masked bytes and touches nothing else |
| MaskRoutines.ByteMaskCirc | WebSocketPP/websocketpp/frame.hpp:830-859 | On a prepared key it computes the same bytes as the byte loop, in place or not, and returns the prepared key for the next piece |
| MaskRoutines.WordMaskExact | WebSocketPP/websocketpp/frame.hpp:702-735 | Eight bytes at a time and then a byte loop: the same bytes as the byte loop, for every length, in place or not |
| MaskRoutines.WordMaskCirc | WebSocketPP/websocketpp/frame.hpp:768-807 | Whole words, then the rest from the bytes of the prepared key: the same bytes, and the prepared key for the next piece |
| Utf8.ValidIffWellFormed | WebSocketPP/websocketpp/utf8_validator.hpp:143-149 | A string is accepted exactly when it is a sequence of characters of the grammar in section 4 of RFC 3629, for every byte string |
| Utf8.NotRejectedIffExtendable | WebSocketPP/websocketpp/utf8_validator.hpp:105-118 | Decoding has not rejected exactly when some continuation makes the string well-formed |
| Utf8.RejectAbsorbs | WebSocketPP/websocketpp/utf8_validator.hpp:45-78 | No input leaves the reject state |
| Utf8.RunConcat | WebSocketPP/websocketpp/utf8_validator.hpp:105-118 | Feeding in pieces equals feeding at once, state and code point |
| Utf8.AcceptedCodepoint | WebSocketPP/websocketpp/utf8_validator.hpp:69-78 | Whenever the automaton is back in the accept state, its code point is the scalar value of the last character |
| Utf8.EncodeIsChar | WebSocketPP/websocketpp/utf8_validator.hpp:45-60 | Every Unicode scalar value encodes to a character of the grammar |
| Utf8.ScalarInvertsEncode | WebSocketPP/websocketpp/utf8_validator.hpp:69-78 | Every character of the grammar is the encoding of its scalar value, so shortest forms only and no surrogates |
| Utf8.NeverFF | WebSocketPP/websocketpp/utf8_validator.hpp:45-60 | A run that does not reject has met no byte 0xFF |
| Utf8.Validator.Advance | WebSocketPP/websocketpp/utf8_validator.hpp:69-78 | The two assignments through pointers take exactly one step of the table automaton |
| Utf8.Validator.Consume | WebSocketPP/websocketpp/utf8_validator.hpp:91-96 | One byte: the step, and false exactly on reject |
| Utf8.Validator.Decode | WebSocketPP/websocketpp/utf8_validator.hpp:105-118 | The byte loop stops at the first reject and equals the run of the automaton |
| Utf8.Validator.Complete | WebSocketPP/websocketpp/utf8_validator.hpp:124-126 | True exactly between characters |
| Utf8.Validator.Reset | WebSocketPP/websocketpp/utf8_validator.hpp:129-132 | Back to the fresh decoder |
| Utf8.Validate | WebSocketPP/websocketpp/utf8_validator.hpp:143-149 | The convenience function returns true exactly on well-formed strings |
| Frame.BasicHeaderInverse | WebSocketPP/websocketpp/frame.hpp:190-228 | The extractors of the basic header return the opcode, FIN, RSV bits, mask bit and length code given to the constructor, for every size |
| Frame.HeaderInverse | WebSocketPP/websocketpp/frame.hpp:235-275 | get_payload_size, get_masking_key and get_header_len return what the header was built from, for every 64-bit size, and the extended header validates |
| Frame.CanonicalHeader | WebSocketPP/websocketpp/frame.hpp:489-502 | Every pair of headers both validators accept is, byte for byte, what the constructors build from its opcode, FIN, size and key: minimal lengths only |
| Frame.CanonicalSize | WebSocketPP/websocketpp/processors/hybi13.hpp:926-951 | An accepted extended length is the shortest encoding of its value |
| Sender.AcceptedFrameIsEncoded | WebSocketPP/websocketpp/processors/hybi13.hpp:848-951 | Every frame whose header passes the checks is, byte for byte, the encoding of its opcode, FIN, key and unmasked payload |
| WireBytes.HeaderBytes | WebSocketPP/websocketpp/frame.hpp:194-275 | Every header in numbers: opcode and 0x80 for FIN, then the length in one byte, three (126) or nine (127) with 0x80 for a mask, then the key |
| WireBytes.EncodedBytes | WebSocketPP/websocketpp/processors/hybi13.hpp:605-685 | The whole frame that the sender makes, in numbers, masked or not |
| WireBytes.HeadByBytes | WebSocketPP/websocketpp/processors/hybi13.hpp:391-461 | The decision about every head by its bytes: which of the errors in which order, incomplete, or accepted with its length, size and key |
| WireBytes.BinaryIsRead | WebSocketPP/websocketpp/processors/hybi13.hpp:382-508 | 0x82 with any length, masked towards a server only, is delivered as message 2 |
| WireBytes.TextIsRead | WebSocketPP/websocketpp/processors/hybi13.hpp:535-541 | 0x81 is delivered as message 1 exactly when the payload is well-formed UTF-8, and is the error otherwise |
| WireBytes.ControlIsRead | WebSocketPP/websocketpp/processors/hybi13.hpp:424-443 | 0x88, 0x89 and 0x8A are delivered as messages 8, 9 and 10 |
| WireBytes.FragmentsAreRead | WebSocketPP/websocketpp/processors/hybi13.hpp:444-461 | 0x02, a ping 0x89, and 0x80 are delivered as the ping and then the joined message 2 |
| WireBytes.ShortBinaryIsRead | WebSocketPP/websocketpp/processors/hybi13.hpp:382-508 | [0x82, 0x80 + n], a key and n masked bytes, at most 125, written out |
| WireBytes.ShortTextIsRead | WebSocketPP/websocketpp/processors/hybi13.hpp:535-541 | The same for 0x81, with the error for ill-formed text |
| WireBytes.ShortControlIsRead | WebSocketPP/websocketpp/processors/hybi13.hpp:424-443 | The same for 0x88, 0x89 and 0x8A |
| WireBytes.BinaryPrepared | WebSocketPP/websocketpp/processors/hybi13.hpp:605-685 | Opcode 2 is always prepared, as 0x82, or 0x02 without FIN |
| WireBytes.TextPrepared | WebSocketPP/websocketpp/processors/hybi13.hpp:622-624 | Opcode 1 is prepared as 0x81 or 0x01 exactly for well-formed text, and refused otherwise |
| WireBytes.PreparedControlBytes | WebSocketPP/websocketpp/processors/hybi13.hpp:977-1017 | Opcodes from 8 with at most 125 bytes are prepared, as 0x80 plus the opcode, and which error the others get |
| WireBytes.ShortBinaryPrepared | WebSocketPP/websocketpp/frame.hpp:96-97 | A server sends [0x82, n] and the payload, written out |
| WireBytes.ShortTextPrepared | WebSocketPP/websocketpp/frame.hpp:96-97 | A server sends [0x81, n] and the payload exactly for well-formed text, written out |
| WireBytes.ShortControlPrepared | WebSocketPP/websocketpp/frame.hpp:98-108 | A server sends [0x88, n], [0x89, n] or [0x8A, n] and the payload, written out |
| OneShot.ParseHead | WebSocketPP/websocketpp/processors/hybi13.hpp:391-424 | A complete accepted head lies within the stream and has at least the two basic bytes |
| OneShot.HeadStable | WebSocketPP/websocketpp/processors/hybi13.hpp:391-424 | Once a head is decided, later bytes do not change it |
| OneShot.BadHeadFails | WebSocketPP/websocketpp/processors/hybi13.hpp:401-421 | A rejected header fails the stream whatever follows |
| OneShot.RejectedFails | WebSocketPP/websocketpp/processors/hybi13.hpp:825-831 | Text that the automaton rejects inside a frame fails the stream whatever follows |
| OneShot.EndsMidCharacterFails | WebSocketPP/websocketpp/processors/hybi13.hpp:535-541 | A final text frame that ends inside a character fails the stream whatever follows |
| OneShot.FragmentContinues | WebSocketPP/websocketpp/processors/hybi13.hpp:492-500 | After a frame without FIN the rest of the stream is read with the message extended by it |
| OneShot.FinalFrame | WebSocketPP/websocketpp/processors/hybi13.hpp:492-494 | A complete final frame delivers its message and the rest is read from between messages; control frames leave the message under assembly alone |
| OneShot.DeliversConcat | WebSocketPP/websocketpp/processors/hybi13.hpp:382-508 | Delivering composes over concatenated input |
| Hybi13.Processor.constructor | WebSocketPP/websocketpp/processors/hybi13.hpp:72-78 | A fresh processor has read nothing and waits for two bytes |
| Hybi13.Processor.ResetHeaders | WebSocketPP/websocketpp/processors/hybi13.hpp:548-560 | State, counters and both headers are those of the beginning of a frame |
| Hybi13.Processor.CopyBasicHeaderBytes | WebSocketPP/websocketpp/processors/hybi13.hpp:744-773 | Takes one or two bytes, and what it has taken so far is the prefix of the basic header |
| Hybi13.Processor.CopyExtendedHeaderBytes | WebSocketPP/websocketpp/processors/hybi13.hpp:776-784 | Takes what is there or what is needed, at the cursor, never past the twelve bytes of the extended header |
| Hybi13.Processor.StepBasic | WebSocketPP/websocketpp/processors/hybi13.hpp:393-410 | The basic-header branch: the bytes read, or the error, are those of the one-shot parser |
| Hybi13.Processor.StepExtended | WebSocketPP/websocketpp/processors/hybi13.hpp:411-478 | The extended-header branch likewise, up to the message and the key it sets up |
| Hybi13.Processor.BeginPayload | WebSocketPP/websocketpp/processors/hybi13.hpp:424-477 | The message under assembly: a new one for control frames and first frames, the open one for continuations, with the size check in 64 bits |
| Hybi13.Processor.Unmask | WebSocketPP/websocketpp/processors/hybi13.hpp:799-816 | The bytes in the buffer are unmasked in place and the returned key is the one for the next piece |
| Hybi13.Processor.AppendPayload | WebSocketPP/websocketpp/processors/hybi13.hpp:818-836 | Payload and UTF-8 state grow by the unmasked bytes; the error is the reject of the automaton on a text message |
| Hybi13.Processor.ProcessPayloadBytes | WebSocketPP/websocketpp/processors/hybi13.hpp:799-836 | One piece of payload, unmasked from where the last piece ended, whatever the pieces |
| Hybi13.Processor.FinalizeMessage | WebSocketPP/websocketpp/processors/hybi13.hpp:518-546 | The message is ready unless the last frame is a text frame that ends inside a character |
| Hybi13.Processor.EndFragment | WebSocketPP/websocketpp/processors/hybi13.hpp:495-499 | A frame without FIN leaves the message open and the headers reset |
| Hybi13.Processor.StepApplication | WebSocketPP/websocketpp/processors/hybi13.hpp:479-501 | The payload branch: at most the bytes needed are taken, and a zero-length frame ends without taking any |
| Hybi13.Processor.Step | WebSocketPP/websocketpp/processors/hybi13.hpp:391-507 | Every turn of the loop keeps the correspondence with the one-shot parser, and takes a byte or advances the state |
| Hybi13.Processor.Consume | WebSocketPP/websocketpp/processors/hybi13.hpp:382-508 | Terminates, takes no more than len, leaves the machine ready, failed, or with all input taken and bytes needed above zero, and what was taken plus what was read before stand for the same future |
| Hybi13.Processor.GetMessage | WebSocketPP/websocketpp/processors/hybi13.hpp:567-583 | Returns the ready message once and goes back to the beginning of a frame; a data message under assembly survives a control message |
| Hybi13.Processor.ReadFrames | WebSocketPP/websocketpp/impl/connection_impl.hpp:1032-1103 | The loop over one read buffer makes progress in every turn and delivers what the one-shot parser delivers |
| Hybi13.ReadChunks | WebSocketPP/websocketpp/impl/connection_impl.hpp:1032-1103 | Chunk invariance: for every byte stream and every way of cutting it into reads, the messages delivered and the first error are those of the one-shot parser on the concatenation |
| Reassembly.DeliversAssembledFrames | WebSocketPP/websocketpp/processors/hybi13.hpp:424-505 | The delivered messages are the unmasked frames that pass every check, with fragments joined and control frames in their places; without an error, all complete frames of the stream |
| Reassembly.FailingFrame | WebSocketPP/websocketpp/processors/hybi13.hpp:391-505 | With an error, the frame right after those is the one that fails, by the header check, the invalid text or the unfinished character that the error names |
| Reassembly.DeliversAcceptable | WebSocketPP/websocketpp/processors/hybi13.hpp:430-461 | Every data message delivered is within the maximum size, every text message is a prefix of well-formed UTF-8, every control message is at most 125 bytes with a known opcode, whatever the bytes |
| Reassembly.CheckedOpcode | WebSocketPP/websocketpp/processors/hybi13.hpp:848-913 | What the basic-header checks leave possible: control frames whole and short, continuations exactly inside a message, masking exactly towards a server, no RSV bit, no size over the limit |
| Reassembly.SingleFrameText | WebSocketPP/websocketpp/processors/hybi13.hpp:535-541 | A text message in one frame is delivered exactly when it is well-formed UTF-8, and is the error otherwise |
| Reassembly.SizeCheckExact | WebSocketPP/websocketpp/processors/hybi13.hpp:453-461 | The size check of a continuation admits exactly the sizes within the maximum, if and only if the 64-bit sum does not wrap |
| Reassembly.SizeCheckWraps | WebSocketPP/websocketpp/processors/hybi13.hpp:453-461 | Witness in bytes: after one byte, a continuation header that announces 2^64 - 1 bytes is accepted |
| Reassembly.AssemblyBounded | WebSocketPP/websocketpp/processors/hybi13.hpp:430-461 | At any point of any stream the message under assembly, with what has come of the last frame, is within the maximum, if no announced size wraps the sum |
| Fragments.LimitPassedInStream | WebSocketPP/websocketpp/processors/hybi13.hpp:453-461 | Witness from the beginning of a stream: for every maximum above 0 and below the greatest, two frames leave a message of one byte more than the maximum under assembly |
| Sender.MaskedCopy | WebSocketPP/websocketpp/processors/hybi13.hpp:961-966 | The copy is the masked payload |
| Sender.PrepareDataFrame | WebSocketPP/websocketpp/processors/hybi13.hpp:605-685 | The errors for control opcodes and invalid text; otherwise the header for opcode, FIN, length and key, and the payload, masked by a client |
| Sender.PrepareControl | WebSocketPP/websocketpp/processors/hybi13.hpp:977-1017 | The errors for data opcodes and payloads over 125 bytes; otherwise a final control frame, masked by a client |
| Sender.DataRoundTrip | WebSocketPP/websocketpp/processors/hybi13.hpp:605-685 | Whatever text or binary message prepare_data_frame encodes, in either role and with any key, the peer delivers the same opcode and payload; text is refused exactly when it is not well-formed |
| Sender.ControlRoundTrip | WebSocketPP/websocketpp/processors/hybi13.hpp:977-1017 | The same for close, ping and pong, whatever message the peer is assembling meanwhile |
| Sender.EncodedParses | WebSocketPP/websocketpp/processors/hybi13.hpp:391-424 | The parser reads back header, key and payload of every frame the receiver's role and state admit |
| Sender.StreamRoundTrip | WebSocketPP/websocketpp/processors/hybi13.hpp:382-508 | A whole stream of frames, fragmented and interleaved as section 5.4 of RFC 6455 allows, is read back as the messages it spells |
| Fragments.FragmentedTextDelivered | WebSocketPP/websocketpp/processors/hybi13.hpp:535-541 | Text in two or more frames, with any control frames in between, is delivered if and only if some continuation makes it well-formed; otherwise the error is invalid UTF-8 and at most control messages come before it |
| Fragments.DeliveredThoughIllFormed | WebSocketPP/websocketpp/processors/hybi13.hpp:535-541 | Such text is delivered although ill-formed exactly when the automaton ends inside a character |
| Fragments.RemainderDecides | WebSocketPP/websocketpp/processors/hybi13.hpp:825-831 | From any point inside such a message, the bytes that follow decide in the same way |
| Sender.FragmentedTextMayEndMidCharacter | WebSocketPP/websocketpp/processors/hybi13.hpp:535-541 | Witness: text fragmented so that a continuation is last is delivered although it ends inside a character |
| ConnectionSpec.BatchTerminal | WebSocketPP/websocketpp/impl/connection_impl.hpp:1806-1818 | write_frame takes messages up to and with the first terminal one, and at least one of a non-empty queue |
| ConnectionSpec.PushKeeps | WebSocketPP/websocketpp/impl/connection_impl.hpp:2210-2225 | write_push and its dispatch keep the write-side invariant |
| ConnectionSpec.WriteFrameKeeps | WebSocketPP/websocketpp/impl/connection_impl.hpp:1793-1886 | write_frame keeps it, restores the buffered amount, and starts a write only when none is outstanding |
| ConnectionSpec.WriteCompletedKeeps | WebSocketPP/websocketpp/impl/connection_impl.hpp:1889-1928 | A completed write keeps it, and leaves a dispatch for a non-empty queue unless it failed or was terminal |
| ConnectionSpec.TerminateKeeps | WebSocketPP/websocketpp/impl/connection_impl.hpp:1698-1748 | terminate keeps the lifecycle invariant: one shutdown, with the status of the state it found |
| ConnectionSpec.ShutdownKeeps | WebSocketPP/websocketpp/impl/connection_impl.hpp:1751-1790 | handle_terminate runs the fail handler or the close handler as the state requires, once |
| ConnectionSpec.HttpWrittenKeeps | WebSocketPP/websocketpp/impl/connection_impl.hpp:1351-1431 | A completed response keeps the lifecycle invariant, and opens a connection exactly when the write succeeded, the connection is still connecting and processing the request, and the response switches protocols |
| ConnectionSpec.OpensExactly | WebSocketPP/websocketpp/impl/connection_impl.hpp:1420-1425 | No other event ever opens a connection |
| ConnectionSpec.ReadHandshakeKeeps | WebSocketPP/websocketpp/impl/connection_impl.hpp:804-941 | Reading the handshake, with its guards, keeps the invariant |
| ConnectionSpec.ReadFrameKeeps | WebSocketPP/websocketpp/impl/connection_impl.hpp:965-1106 | Every outcome of a read keeps it |
| ConnectionSpec.ReceiveCloseKeeps | WebSocketPP/websocketpp/impl/connection_impl.hpp:1977-2050 | Every branch of a received close frame keeps it |
| ConnectionSpec.StepKeeps | WebSocketPP/websocketpp/impl/connection_impl.hpp:716-2248 | Every event of the step system keeps the whole invariant and undoes nothing: states only move forward, histories only grow |
| ConnectionLaws.RunBegins | WebSocketPP/websocketpp/connection.hpp:308-333 | A run begins connecting, with nothing queued, written or pending and no handler run |
| ConnectionLaws.RunGoesOn | WebSocketPP/websocketpp/impl/connection_impl.hpp:716-2248 | Every run goes on with every event, completions only of what is pending |
| ConnectionRuns.WriteSafety | WebSocketPP/websocketpp/impl/connection_impl.hpp:1793-1928 | In every run: buffered amount equals the queued payloads (mod 2^64), at most one transport write, written is a prefix of pushed with a terminal message only at its end, and a non-empty queue has a write or dispatch to carry it unless a failed or terminal write has closed the connection |
| ConnectionRuns.TerminalEndsWriting | WebSocketPP/websocketpp/impl/connection_impl.hpp:1806-1818 | In every run nothing is written after a terminal message |
| ConnectionRuns.LifecycleSafety | WebSocketPP/websocketpp/impl/connection_impl.hpp:1698-1790 | In every run: the state only moves forward, shutdown is issued at most once and exactly on closed connections, the fail handler excludes open and close handlers, the close handler runs at most once and only on a connection that opened |
| ConnectionRuns.WasOpen | WebSocketPP/websocketpp/impl/connection_impl.hpp:1420-1425 | The flag the other statements use is true exactly when the run has passed through the open state |
| ConnectionLaws.SendLaw | WebSocketPP/websocketpp/impl/connection_impl.hpp:104-152 | In every run: a send, ping or pong on an open connection appends the prepared message to queue and record and leaves a write or dispatch pending; otherwise nothing changes |
| ConnectionLaws.CloseLaw | WebSocketPP/websocketpp/impl/connection_impl.hpp:303-323 | In every run: a close on an open connection pushes the frame, terminal or not, and the state is closing; otherwise nothing changes |
| ConnectionLaws.DataLaw | WebSocketPP/websocketpp/impl/connection_impl.hpp:1085-1098 | A data message or a pong leaves an open connection as it is |
| ConnectionLaws.PingLaw | WebSocketPP/websocketpp/impl/connection_impl.hpp:1957-1969 | A ping is answered exactly on an open connection whose handler agrees |
| ConnectionLaws.ReceivedCloseLaw | WebSocketPP/websocketpp/impl/connection_impl.hpp:2022-2050 | A valid close: open becomes closing with a terminal answer; closing and waiting ends, cleanly, with one shutdown; else nothing happens |
| ConnectionLaws.InvalidCloseLaw | WebSocketPP/websocketpp/impl/connection_impl.hpp:1981-2020 | An invalid close: dropped if so configured, else answered with a terminal message |
| ConnectionLaws.ProtocolErrorLaw | WebSocketPP/websocketpp/impl/connection_impl.hpp:1058-1080 | An error of the processor: dropped if so configured, else closed with a frame, or ended where that is impossible |
| ConnectionLaws.ReadErrorLaw | WebSocketPP/websocketpp/impl/connection_impl.hpp:965-1027 | A failed read, or one before the connection opened, ends it, except for expected errors after the end |
| ConnectionLaws.WriteFrameLaw | WebSocketPP/websocketpp/impl/connection_impl.hpp:1793-1886 | write_frame hands everything up to the first terminal message to one transport write, and is used up without effect while one is outstanding or nothing is queued |
| ConnectionLaws.WriteDoneLaw | WebSocketPP/websocketpp/impl/connection_impl.hpp:1889-1928 | After a failed or terminal write the connection ends for good; otherwise the next is dispatched if anything is queued |
| ConnectionLaws.TimeoutLaw | WebSocketPP/websocketpp/impl/connection_impl.hpp:1666-1695 | A handshake timeout ends the connection |
| ConnectionLaws.ShutdownLaw | WebSocketPP/websocketpp/impl/connection_impl.hpp:1751-1790 | After the shutdown the fail handler runs on a connection that never opened, unless its HTTP exchange is over, and the close handler on one that did |
| ConnectionLaws.StartLaw | WebSocketPP/websocketpp/impl/connection_impl.hpp:716-737 | start works once; a second call ends the connection |
| ConnectionLaws.TransportLaw | WebSocketPP/websocketpp/impl/connection_impl.hpp:740-771 | A ready transport reads the request; an error or a wrong state ends the connection |
| ConnectionLaws.HandshakeLaw | WebSocketPP/websocketpp/impl/connection_impl.hpp:804-960 | Every outcome of reading the request, by the state and the request |
| ConnectionLaws.DeferredLaw | WebSocketPP/websocketpp/impl/connection_impl.hpp:686-708 | A deferred response is sent once |
| ConnectionLaws.ResponseLaw | WebSocketPP/websocketpp/impl/connection_impl.hpp:1351-1431 | Every outcome of writing the response; the open handler runs exactly when the connection opens |
| ConnectionStream.ReceivePing | WebSocketPP/websocketpp/impl/connection_impl.hpp:1957-1969 | On an open connection whose handler agrees, [0x8A, n] and the ping's payload are pushed; otherwise nothing changes |
| ConnectionStream.WrittenIsDelivered | WebSocketPP/websocketpp/impl/connection_impl.hpp:1793-1928 | In every run whose pushed messages are what prepare_data_frame and prepare_control make, the peer reads from the bytes written exactly the messages written, a prefix of those pushed |
| ConnectionStream.WrittenIsRead | WebSocketPP/websocketpp/impl/connection_impl.hpp:1793-1928 | The same for every legal stream of frames, fragmented or not |
| ConnectionStream.SendMessage | WebSocketPP/websocketpp/impl/connection_impl.hpp:104-152 | send with its state check, preparation and push: true exactly on an open connection for a data opcode and well-formed text, and then the frame's bytes are pushed and a write or dispatch will carry them; otherwise nothing changes |
| ConnectionStream.PreparedMessageIs | WebSocketPP/websocketpp/processors/hybi13.hpp:605-685 | Preparing fails exactly for control opcodes and ill-formed text, and what is pushed is the prepared frame |
| ServerConnection.ServerConnection.WritePush | WebSocketPP/websocketpp/impl/connection_impl.hpp:2210-2225 | The queue, the record and the 64-bit byte count grow by the message |
| ServerConnection.ServerConnection.WritePop | WebSocketPP/websocketpp/impl/connection_impl.hpp:2228-2248 | The first message leaves the queue and the byte count |
| ServerConnection.ServerConnection.Enqueue | WebSocketPP/websocketpp/impl/connection_impl.hpp:136-151 | Push under the lock, and a dispatch exactly when no write is outstanding |
| ServerConnection.ServerConnection.PullBatch | WebSocketPP/websocketpp/impl/connection_impl.hpp:1806-1818 | The loop moves exactly the messages up to and with the first terminal one |
| ServerConnection.ServerConnection.WriteFrame | WebSocketPP/websocketpp/impl/connection_impl.hpp:1793-1886 | Equals the write_frame step, including the return while a write is outstanding |
| ServerConnection.ServerConnection.HandleWriteFrame | WebSocketPP/websocketpp/impl/connection_impl.hpp:1889-1928 | Equals the completion step, with terminate after failed and terminal writes |
| ServerConnection.ServerConnection.Terminate | WebSocketPP/websocketpp/impl/connection_impl.hpp:1698-1748 | Equals the terminate step in all four states |
| ServerConnection.ServerConnection.HandleTerminate | WebSocketPP/websocketpp/impl/connection_impl.hpp:1751-1790 | Equals the shutdown completion, handler by handler |
| ServerConnection.ServerConnection.Start | WebSocketPP/websocketpp/impl/connection_impl.hpp:716-737 | Equals its step, with the invalid-state branch |
| ServerConnection.ServerConnection.HandleTransportInit | WebSocketPP/websocketpp/impl/connection_impl.hpp:740-771 | Equals its step |
| ServerConnection.ServerConnection.WriteHttpResponse | WebSocketPP/websocketpp/impl/connection_impl.hpp:1296-1348 | Equals its step |
| ServerConnection.ServerConnection.WriteHttpResponseError | WebSocketPP/websocketpp/impl/connection_impl.hpp:949-960 | Equals its step |
| ServerConnection.ServerConnection.HandleReadHandshake | WebSocketPP/websocketpp/impl/connection_impl.hpp:804-941 | Equals its step in every branch of the guards |
| ServerConnection.ServerConnection.SendHttpResponse | WebSocketPP/websocketpp/impl/connection_impl.hpp:686-708 | Equals its step |
| ServerConnection.ServerConnection.HandleWriteHttpResponse | WebSocketPP/websocketpp/impl/connection_impl.hpp:1351-1431 | Equals its step: opening, HTTP end, errors |
| ServerConnection.ServerConnection.Send | WebSocketPP/websocketpp/impl/connection_impl.hpp:104-152 | Equals its step; nothing is pushed outside the open state or when preparing fails |
| ServerConnection.ServerConnection.SendCloseFrame | WebSocketPP/websocketpp/impl/connection_impl.hpp:2065-2158 | The state moves to closing and the prepared frame is pushed, terminal or not |
| ServerConnection.ServerConnection.Close | WebSocketPP/websocketpp/impl/connection_impl.hpp:326-349 | Equals its step, and the error returned tells which branch was taken |
| ServerConnection.ServerConnection.ProcessClose | WebSocketPP/websocketpp/impl/connection_impl.hpp:1977-2050 | Equals the received-close step |
| ServerConnection.ServerConnection.HandleReadFrame | WebSocketPP/websocketpp/impl/connection_impl.hpp:965-1106 | Equals its step for every frame delivered, processor error and read error |
| ServerConnection.ServerConnection.Handle | WebSocketPP/websocketpp/impl/connection_impl.hpp:716-2248 | Refinement: from every state that satisfies the invariant, every handler takes exactly its step and keeps the invariant |
| R2CPParser.R2CPParser.ReadUint32 | R2CPParser.cpp:316-337 | The value and the next offset, the bounds error, or the exception of vector::at, and for each exactly what is left on the offset stack |
| R2CPParser.R2CPParser.ReadBytesFrom | R2CPParser.cpp:341-365 | Likewise for a range, byte by byte |
| R2CPParser.R2CPParser.Skip | R2CPParser.cpp:369-376 | The offset on top moves, in 32 bits, and nothing else |
| R2CPParser.R2CPParser.CheckIfEndIsReached | R2CPParser.cpp:301-312 | True exactly at the packet length |
| R2CPParser.R2CPParser.ValidateParameterized | R2CPParser.cpp:258-297 | Equals the first pass over parameters; the stack is as before, or one shorter exactly when a read lost its offset |
| R2CPParser.R2CPParser.ValidateCommandContent | R2CPParser.cpp:232-254 | Equals the first pass over one content |
| R2CPParser.R2CPParser.ValidateCommandList | R2CPParser.cpp:197-228 | Equals the first pass over the body, and no pop meets an empty stack even after lost offsets |
| R2CPParser.R2CPParser.ValidatePacket | R2CPParser.cpp:66-117 | Equals the first pass, from any leftover stack; the stack is empty afterwards unless an exception escapes |
| R2CPParser.R2CPParser.ParseParameterized | R2CPParser.cpp:147-193 | Equals the second pass over parameters; the stack is as before unless out_of_range escapes |
| R2CPParser.R2CPParser.ParseCommandContent | R2CPParser.cpp:121-143 | Equals the second pass over one content |
| R2CPParser.R2CPParser.ParsePacket | R2CPParser.cpp:14-62 | Equals the second pass, from any leftover stack; the stack is empty afterwards unless out_of_range escapes |
| R2CPFormat.ReadWordIff | R2CPParser.cpp:316-337 | Below 4 GiB a word is read exactly when four bytes are left, and is those four bytes: wrapping sums never read |
| R2CPFormat.ReadBytesIff | R2CPParser.cpp:341-365 | Below 4 GiB a range is read exactly when it lies in the packet: when the sum wraps past the bounds check, vector::at throws |
| R2CPFormat.CommandsAreEntries | R2CPParser.cpp:197-228 | A body that passes the first pass is code, size, content end to end, with every content accepted |
| R2CPFormat.EntriesAreAccepted | R2CPParser.cpp:197-228 | And every such body passes |
| R2CPFormat.AcceptedIsPacket | R2CPParser.cpp:66-117 | An accepted packet with a body is magic, size, count and commands, byte for byte |
| R2CPFormat.PacketIsAccepted | R2CPParser.cpp:66-117 | And every such packet is accepted |
| R2CPFormat.ParsePacket | R2CPParser.cpp:14-62 | On such a packet the second pass reads exactly its commands, to the packet end |
| R2CPFormat.EmptyBodyThrows | R2CPParser.cpp:21-25 | A packet with an empty body is accepted and then makes the second pass throw |
| R2CPTheorems.ThrowsIffWraps | R2CPParser.cpp:147-193 | On content the first pass accepted, the second throws out_of_range if and only if a 32-bit offset wraps before the first undefined code |
| R2CPTheorems.ReturnedParametersAreTheContent | R2CPParser.cpp:147-193 | Parameters returned are the whole content, in order, all with codes of the dictionary |
| R2CPTheorems.ParametersAreReturned | R2CPParser.cpp:147-193 | Parameters end to end are accepted and returned, or discarded exactly when some code is undefined |
| R2CPTheorems.ContentOutcome | R2CPParser.cpp:121-143 | One accepted content: throws iff an offset wraps, returns ps iff it is the content of a command with parameters ps |
| R2CPTheorems.TwoPassAgreement | R2CPParser.cpp:14-117 | For every accepted packet with a body: it is a list of commands, the second pass throws if and only if an offset wraps inside a valid parameterized command, and otherwise returns in order exactly the commands the list denotes |
| R2CPTheorems.ThrowsExactly | R2CPParser.cpp:14-117 | Of all accepted packets below 4 GiB, the second pass throws out_of_range on exactly those without a body and those in which an offset wraps |
| R2CPTheorems.EmptyBodyAccepted | R2CPParser.cpp:80-82 | Witness: eight bytes that the first pass accepts and the second throws on |
| R2CPTheorems.KeptIsOne | R2CPParser.cpp:38-51 | The commands a list denotes are determined: no two different results fit the statement above |
| R2CPTheorems.AcceptedButThrows | R2CPParser.cpp:147-193 | Witness: a packet of 36 bytes that the first pass accepts and the second throws on |
| R2CPBytes.AcceptedExactly | R2CPParser.cpp:66-117 | Below 4 GiB the first pass never throws, and accepts exactly [0x52, 0x32 or 0x52, 0x43, 0x50] with size zero, and the lists of commands whose contents pass |
| R2CPBytes.RefusedExactly | R2CPParser.cpp:57-59 | invalid_argument is thrown exactly for all other packets |
| R2CPBytes.EveryOutcome | R2CPParser.cpp:14-62 | All three outcomes by the format alone: refused, thrown on, or the commands that the list denotes |
| R2CPBytes.ContentAccepted | R2CPParser.cpp:232-297 | Which contents pass: none, any, or a list of parameters; where it is no list, a 32-bit offset wraps |
| R2CPBytes.OneCommandBytes | R2CPParser.cpp:316-337 | A packet of one command, byte by byte |
| R2CPBytes.PlainCommand | R2CPCommandDictionary.cpp:4-63 | Codes 1, 2, 3 and 7 come back without content, unknown codes are skipped, and content makes either packet invalid |
| R2CPBytes.PrintCommand | R2CPCommandDictionary.cpp:53-63 | Code 8 comes back with any content, under the parameter code 0 |
| R2CPBytes.ParameterCommand | R2CPCommandDictionary.cpp:32-51 | Codes 4, 5 and 6 come back exactly if all parameter codes are 1, 2, 3 or 5 to 10 |
| R2CPBytes.SamePacket | R2CPParser.cpp:14-62 | A packet determines its commands |
| R2CPTheorems.OneCommand | R2CPParser.cpp:121-193 | A packet of one parameterized command with any parameters is accepted, and the command comes back if and only if the dictionary has all its parameters, else it is dropped |
| R2CPTheorems.ImageWithHeightDropped | R2CPCommandDictionary.cpp:32-51 | Any image command that gives the image height is accepted and dropped |
| R2CPTheorems.PacketRoundTrip | R2CPParser.cpp:14-117 | Every list of commands that conform to the dictionary and fit 32 bits is accepted and parsed back to the same list, in the format the parser reads |
| R2CPSizes.ListSize | R2CPSerializer.cpp:111-162 | The size formula: a list on the wire takes four bytes, eight an entry, and the data |
| R2CPSizes.PrecomputeCommandContentSize | R2CPSerializer.cpp:150-162 | The loop computes the exact content length, modulo 2^32 in general |
| R2CPSizes.PrecomputePacketSize | R2CPSerializer.cpp:111-146 | For dictionary commands the loop computes the body length if and only if that has 32 bits and no parameterized command is without parameters; within 32 bits it is short by exactly four bytes for each such command |
| R2CPSizes.MiscountedPacket | R2CPSerializer.cpp:111-146 | Witness: one such command, for which 12 is computed where the body has 16 bytes |
| R2CPSizes.NoneBare | R2CPSerializer.cpp:111-146 | The number of such commands is zero exactly when there is none |
| Base64.DecodeEncode | Base64/Base64.cpp:19-60 | Decoding inverts encoding for every byte string, and what is encoded is canonical |
| Base64.EncodeDecode | Base64/Base64.cpp:64-104 | Encoding inverts decoding on exactly the canonical strings: quadruples of digits, correctly padded with zero bits |
| Base64.AlphabetInOrder | Base64/Base64.cpp:6-9 | The alphabet in its order: capitals, small letters, digits, plus, slash |
| Base64.QuadNumber | Base64/Base64.cpp:33-36 | Three bytes and their four digits are the same number of 24 bits |
| Base64.PaddedGroup | Base64/Base64.cpp:44-58 | One or two bytes at the end have the first digits of a group and '=' for the others |
| Base64.DecodedAt | Base64/Base64.cpp:65-104 | What every string decodes to, canonical or not: three bytes for four characters of the alphabet, the whole bytes of a rest, and each byte from the two characters that hold its bits |
| Base64.EncodedLength | Base64/Base64.cpp:19-60 | The encoding of n bytes has 4 * ceil(n / 3) characters |
| Base64.Digit | Base64/Base64.cpp:6-9 | The character of a value is in the alphabet and find returns the value |
| Base64Codec.Base64Encode | Base64/Base64.cpp:19-60 | The loop over its three- and four-character arrays computes the encoding of section 4 of RFC 4648, of the length taken modulo 2^32 |
| Base64Codec.Base64Decode | Base64/Base64.cpp:64-104 | The loop computes the bytes of the digits before the first other character; the npos values in the tail reach no output |
| PacketQueue.Conservation | R2CPTransceiverQueue.cpp:28-110 | In every interleaving of any number of producers and consumers: the counter is the queued total modulo 2^32, and popped packets are a prefix of pushed ones, the queue being the rest |
| PacketQueue.NoEmptyPop | R2CPTransceiverQueue.cpp:62-110 | With one consumer, however many producers, no pop meets an empty queue between its count and its lock |
| PacketQueue.Bounded | R2CPTransceiverQueue.cpp:28-58 | With one producer, however many consumers, the counter is the exact total and never exceeds the greatest maximum set, if no packet is long enough to wrap the sum |
| PacketQueue.AdmitsExactly | R2CPTransceiverQueue.cpp:28-41 | Without wrap-around the check admits exactly the packets that fit |
| PacketQueue.AdmittedBeyondMaximum | R2CPTransceiverQueue.cpp:28-41 | The check admits a packet that does not fit if and only if the 32-bit sum wraps to at most the maximum |
| PacketQueue.LongPacketAdmitted | R2CPTransceiverQueue.cpp:28-41 | Witness: with one byte queued, a packet of 2^32 - 1 bytes is admitted |
| PacketQueue.NeverEmptyPopsIff | R2CPTransceiverQueue.cpp:62-110 | For any numbers of threads and any maximum: no pop ever meets an empty queue if and only if there is one consumer at most, or no producer |
| PacketQueue.TwoConsumersCollide | R2CPTransceiverQueue.cpp:62-84 | With a producer and any two or more consumers some run has a pop that finds nothing |
| PacketQueue.KeepsMaximumIff | R2CPTransceiverQueue.cpp:28-58 | For any numbers of threads and any maximum: the counter is exact and within it in every run without wrapping sums if and only if there is one producer at most, or the maximum is 0 or 2^32 - 1 |
| PacketQueue.TwoProducersOverrun | R2CPTransceiverQueue.cpp:28-41 | With any two or more producers and any other maximum some run takes the counter past it |
| PacketQueue.CounterDoubles | R2CPTransceiverQueue.cpp:28-41 | With any two or more producers the counter reaches twice the maximum, where that has 32 bits |
| PacketQueue.TransceiverQueue.LockedPush | R2CPTransceiverQueue.cpp:34-36 | The packet is last in the queue and counted |
| PacketQueue.TransceiverQueue.LockedPop | R2CPTransceiverQueue.cpp:69-77 | The first packet leaves the queue and the counter; false exactly when at(0) throws |
| PacketQueue.TransceiverQueue.PushPacket | R2CPTransceiverQueue.cpp:28-58 | Pushed exactly when the 32-bit check admits it, else the overflow error and no change |
| PacketQueue.TransceiverQueue.PopPacket | R2CPTransceiverQueue.cpp:62-110 | The first packet, or the underflow error and no change |
| PacketQueue.TransceiverQueue.GetSize | R2CPTransceiverQueue.cpp:133-147 | The counter returned is the queued total modulo 2^32 |
| PacketQueue.TransceiverQueue.GetPacketsCount | R2CPTransceiverQueue.cpp:151-165 | The number of queued packets modulo 2^32 |
| PacketQueue.TransceiverQueue.SetMax | R2CPTransceiverQueue.cpp:114-129 | Only the maximum changes |
| EndToEnd.Receive | R2CPWebSocketServer.cpp:77-93 | For every stream, every chunks and every state of the queue: the base64 payloads the one-shot parser delivers before the peer closes are decoded and offered to the reception queue in order, and those it does not admit are dropped |
| EndToEnd.HandledExactly | R2CPWebSocketServer.cpp:77-93 | A payload is handled exactly if its opcode is below 8 and no close, 8, came before it |
| EndToEnd.OfferedExactly | R2CPWebSocketServer.cpp:84-92 | Every payload is offered, whatever became of those before: it is queued and counted if the 32-bit sum is within the maximum, and otherwise nothing changes |
| EndToEnd.ProcessPackets | R2CPPacketProcessor.cpp:128-138 | The packet processor parses the queued packets in order until the queue is empty or out_of_range leaves its thread |
| EndToEnd.ProcessedUntil | R2CPPacketProcessor.cpp:128-138 | The first packet that throws out_of_range is the last to be processed, and without one all are |
| EndToEnd.AllAdmitted | R2CPTransceiverQueue.cpp:28-41 | Packets that fit into the queue together are all admitted |
| EndToEnd.Delivered | R2CPWebSocketServer.cpp:77-93 | End to end: packets in base64, in any legal fragmentation with control frames among the fragments, cut into any chunks, through the reception queue, come back as the same commands, packet by packet and in order |
| EndToEnd.DeliveredInterleaved | R2CPPacketProcessor.cpp:128-138 | End to end in every interleaving: when the receiver checks and pushes what the stream delivers, decoded and in order, and the maximum has room for all of it, nothing is refused, and what any consumers have popped so far parses to the first of the commands sent |
| PacketQueue.AllPushed | R2CPTransceiverQueue.cpp:28-41 | With one producer and a maximum that all its packets fit, none is refused in any interleaving: popped, queued and waiting packets are those checked, in order |
| EndToEnd.FramesAreLegal | R2CPWebSocketServer.cpp:165-190 | One binary frame a packet, with any masking keys, satisfies the conditions of the end-to-end statement |
| Md5.State.constructor | WebSocketPP/websocketpp/common/md5.hpp:349-355 | The initial words, counter zero, and nothing appended |
| Md5.State.Append | WebSocketPP/websocketpp/common/md5.hpp:357-391 | For any data: the words are the fold over all whole blocks so far, the buffer holds exactly the tail, the two-word counter the bit length modulo 2^64 |
| Md5.State.Finish | WebSocketPP/websocketpp/common/md5.hpp:393-412 | The digest is the one sections 3.1 to 3.5 of RFC 1321 define for everything appended, for any compression function |
| Md5.HashPieces | WebSocketPP/websocketpp/common/md5.hpp:357-412 | However a message is cut into appends, empty ones included, the digest is that of the whole |
| Md5.CountsMore | WebSocketPP/websocketpp/common/md5.hpp:366-370 | The two additions with carry keep the counter at the bit length modulo 2^64 |
| Md5.CountsOffset | WebSocketPP/websocketpp/common/md5.hpp:360 | The offset taken from the counter is the true length modulo 64 |
| Md5.PaddedToBlocks | WebSocketPP/websocketpp/common/md5.hpp:406-409 | The padding ends on a block, eight bytes after 56 modulo 64 |
| Md5.InitialWords | WebSocketPP/websocketpp/common/md5.hpp:349-355 | The initial words count up and down in their bytes |
| Md5.PaddedByNumber | WebSocketPP/websocketpp/common/md5.hpp:393-409 | The padding byte by byte: 0x80, zeros, the bit length, in whole blocks and as few as can be |
| Md5.DigestByNumber | WebSocketPP/websocketpp/common/md5.hpp:410-411 | Each byte of the digest is the byte of its word, least significant first |
| Blocks.FoldConcat | WebSocketPP/websocketpp/common/md5.hpp:384-386 | Compressing block by block composes over concatenation, for any compression |
| Sha1.InnerHash | WebSocketPP/websocketpp/sha1/sha1.hpp:59-116 | The five loops with the schedule built in place are the eighty rounds of section 6.1.2 of FIPS 180-4 |
| Sha1.LaterRounds | WebSocketPP/websocketpp/sha1/sha1.hpp:90-107 | Its loops from round 20 on, with parity, majority and parity |
| Sha1.Sha1Macro | WebSocketPP/websocketpp/sha1/sha1.hpp:69-77 | The macro's assignments are one round of the standard |
| Sha1.ChoiceIsF | WebSocketPP/websocketpp/sha1/sha1.hpp:79-89 | The disjunction in the first loops is Ch of the standard |
| Sha1.MajorityIsF | WebSocketPP/websocketpp/sha1/sha1.hpp:96-101 | The disjunctions in the third loop are Maj of the standard |
| Sha1.NextWord | WebSocketPP/websocketpp/sha1/sha1.hpp:86 | A word of the schedule stored in place is that of the standard |
| Sha1.WordByShifts | WebSocketPP/websocketpp/sha1/sha1.hpp:154-157 | Four bytes joined by shifts and or are a big-endian word |
| Sha1.LoadBlock | WebSocketPP/websocketpp/sha1/sha1.hpp:150-158 | The loop loads the sixteen words of a block |
| Sha1.Clear | WebSocketPP/websocketpp/sha1/sha1.hpp:51-57 | The first sixteen words become zero |
| Sha1.SetByte | WebSocketPP/websocketpp/sha1/sha1.hpp:168 | A byte or-ed into a cleared word extends the bytes before it |
| Sha1.LastBlocks | WebSocketPP/websocketpp/sha1/sha1.hpp:163-177 | The one-block and the two-block tail both compress the rest of the message with its padding and length |
| Sha1.StoreHash | WebSocketPP/websocketpp/sha1/sha1.hpp:181-183 | The twenty bytes are the words, most significant byte first |
| Sha1.Calc | WebSocketPP/websocketpp/sha1/sha1.hpp:127-184 | For every input the digest of the message padded with its length modulo 2^32 bits, which below 2^29 bytes is SHA-1 of FIPS 180-4 |
| Sha1.InitialWords | WebSocketPP/websocketpp/sha1/sha1.hpp:129-130 | The initial words count up and down in their bytes |
| Sha1.ConstantsAreRoots | WebSocketPP/websocketpp/sha1/sha1.hpp:79-107 | The four constants are the square roots of 2, 3, 5 and 10, times 2^30, rounded down |
| Sha1.RotationsByNumber | WebSocketPP/websocketpp/sha1/sha1.hpp:45-47 | The three rotations as sums of a product and a quotient |
| Sha1.FunctionsByBits | WebSocketPP/websocketpp/sha1/sha1.hpp:79-107 | The round functions bit by bit: a choice, a parity, a majority, a parity |
| Sha1.BlockByNumber | WebSocketPP/websocketpp/sha1/sha1.hpp:150-158 | The words of a block are its bytes, most significant first |
| Sha1.ScheduleByNumber | WebSocketPP/websocketpp/sha1/sha1.hpp:86 | The schedule's recurrence, with its rotation as a number |
| Sha1.RoundByNumber | WebSocketPP/websocketpp/sha1/sha1.hpp:69-77 | One round on all five variables, with its rotations as numbers |
| Sha1.PaddedByNumber | WebSocketPP/websocketpp/sha1/sha1.hpp:163-177 | The padding byte by byte: 0x80, zeros, the length, in whole blocks and as few as can be |
| Sha1.DigestByNumber | WebSocketPP/websocketpp/sha1/sha1.hpp:181-183 | Each byte of the digest is the byte of its word |
| Sha1.PaddedAsStandard | WebSocketPP/websocketpp/sha1/sha1.hpp:176 | The padding is that of section 5.1.1 of FIPS 180-4 if and only if the message is shorter than 2^29 bytes |
| WordOps.BitwiseAt | WebSocketPP/websocketpp/sha1/sha1.hpp:79-107 | And, or and exclusive or on every bit of every number |
| WordOps.ChoiceEither | WebSocketPP/websocketpp/sha1/sha1.hpp:81 | Ch by disjunction equals Ch by exclusive or, at every width |
| WordOps.MajorityEither | WebSocketPP/websocketpp/sha1/sha1.hpp:99 | Maj by disjunction equals Maj by exclusive or |
| Hybi00.PrepareDataFrame | WebSocketPP/websocketpp/processors/hybi00.hpp:329-363 | Exactly well-formed text is framed between 0x00 and 0xFF, with the errors for other opcodes and payloads, and reading the frame gives the text back |
| Hybi00.Processor.Consume | WebSocketPP/websocketpp/processors/hybi00.hpp:252-307 | Stops at the first message, the first error or the end of the buffer, having read what the byte-by-byte reading of the same bytes has |
| Hybi00.Processor.GetMessage | WebSocketPP/websocketpp/processors/hybi00.hpp:317-322 | The message once, and back to the header state |
| Hybi00.ReadOne | WebSocketPP/websocketpp/impl/connection_impl.hpp:1032-1103 | The loop over one buffer equals the byte-by-byte reading |
| Hybi00.ReadChunks | WebSocketPP/websocketpp/impl/connection_impl.hpp:1032-1103 | Chunk invariance for this draft too: messages and error are those of the byte-by-byte reading of the concatenation; so every list of well-formed texts between their markers is recovered under any chunking |
| Hybi00.FramesAreRead | WebSocketPP/websocketpp/processors/hybi00.hpp:252-363 | Every list of texts the validator accepts is read back from between its markers |
| Hybi00.ReadIsStream | WebSocketPP/websocketpp/processors/hybi00.hpp:252-307 | Without an error the stream is exactly the messages between their markers and the beginning of another |
| Hybi00.StreamIsRead | WebSocketPP/websocketpp/processors/hybi00.hpp:252-307 | Every list of texts without 0xFF is read back from between its markers |
| Hybi00.TextIsClean | WebSocketPP/websocketpp/processors/hybi00.hpp:345-348 | Text that the validator accepts never contains the end marker |
| Hybi00.CloseIsViolation | WebSocketPP/websocketpp/processors/hybi00.hpp:401-415 | The two bytes of this draft's own close frame are an error to consume exactly between messages; inside one they end it and begin another |
| CloseCodes.PayloadByNumber | WebSocketPP/websocketpp/processors/hybi13.hpp:697-727 | prepare_close accepts exactly 1005 without a reason, and 1000 to 1003, 1007 to 1014 and 3000 to 4999 with at most 123 bytes; the payload is the code's two bytes and the reason |
| CloseCodes.RefusedByNumber | WebSocketPP/websocketpp/processors/hybi13.hpp:699-714 | Which error all other codes and reasons get, by number |
| CloseCodes.CodeByNumber | WebSocketPP/websocketpp/close.hpp:294-348 | What is read of every payload, by its first two bytes |
| CloseCodes.TerminalByNumber | WebSocketPP/websocketpp/close.hpp:219-223 | Terminal are exactly 1002, 1007, 1008, 1009 and 1011 |
| CloseCodes.TryAgainLater | WebSocketPP/websocketpp/close.hpp:143 | 1013 is sent as 0x03, 0xF5 and the reason |
| CloseHandshake.AnswerByNumber | WebSocketPP/websocketpp/impl/connection_impl.hpp:1977-2050 | The bytes of the answer to every close payload: its echo, 1000 for an empty one, or 1002 and a reason |
| CloseCodes.CloseReadBack | WebSocketPP/websocketpp/close.hpp:294-348 | What prepare_close writes is what extract_code and extract_reason read, for every code and reason it accepts |
| CloseCodes.CloseCanonical | WebSocketPP/websocketpp/close.hpp:294-348 | Every payload that fits a control frame and whose code is read without an error is what prepare_close writes for what is read |
| CloseCodes.CheckedReason | WebSocketPP/websocketpp/close.hpp:333-348 | The reason, and an error exactly when it is not well-formed UTF-8 |
| CloseCodes.CutReason | WebSocketPP/websocketpp/impl/connection_impl.hpp:311-313 | The cut that close makes leaves a well-formed reason well-formed exactly when it is not longer than 123 bytes or the first byte cut off is no continuation byte |
| CloseCodes.CutInside | WebSocketPP/websocketpp/impl/connection_impl.hpp:311-313 | Witness: a well-formed reason of 124 bytes that is ill-formed after the cut |
| Utf8.CutWellFormed | WebSocketPP/websocketpp/utf8_validator.hpp:45-60 | A well-formed string may be cut exactly where no continuation byte follows |
| CloseCodes.AckEchoes | WebSocketPP/websocketpp/impl/connection_impl.hpp:2080-2104 | The answer to a valid close can always be prepared, and its payload is the one received, or a normal close if that was empty |
| CloseHandshake.PreparedCloseIsRead | WebSocketPP/websocketpp/processors/hybi13.hpp:697-730 | A close frame exists exactly if its code and reason are accepted, and the peer delivers its payload, whatever message it is assembling |
| CloseHandshake.CloseWith | WebSocketPP/websocketpp/impl/connection_impl.hpp:303-323 | close with a code and a reason: on an open connection, for the codes that may be sent, no code, or 1005 alone, exactly the frame 0x88 with the code and the first 123 bytes of the reason is pushed, terminal for the five codes, and the state is closing; otherwise nothing changes |
| CloseHandshake.CloseArrives | WebSocketPP/websocketpp/impl/connection_impl.hpp:303-323 | The peer reads the code and the cut reason that close was given, and finds the reason ill-formed exactly when it was cut inside a character |
| CloseHandshake.ReceivePayload | WebSocketPP/websocketpp/impl/connection_impl.hpp:1977-2050 | A received close: the errors of its code and reason, the answer to each, and the echo of a valid one |
| CloseHandshake.AnswerEchoes | WebSocketPP/websocketpp/impl/connection_impl.hpp:1977-2050 | There is an answer to every close payload, and the peer reads its own close back from it, or a normal one if it was empty |

## Left out

- permessage-deflate with the extension hooks of `hybi13.hpp`, and `silent_close`: disabled in the
  configuration.
- The states EXTENSION and FATAL_ERROR of `hybi13.hpp`, which nothing assigns, and the
  processor after its first error, when the connection stops reading.
- Null message pointers and failing allocations of the message managers; message and
  validator objects are values held by the processor.
- Hybi13.Processor.Consume: the validator and the message of `msg_metadata` are fields of the
  processor, so aliasing between metadata records is not modelled.
- Client-side opening, redirects, and the proxy: R2CP only runs the server role.
- The race between the state check and the push inside `send`; each call is one step.
- ServerConnection.ServerConnection.Send: the prepared frame is a parameter, because `ping` and
  `pong` share the step; `ConnectionStream.SendMessage` prepares it.
- ServerConnection.ServerConnection.HandleReadHandshake: the outcome of parsing and processing the
  request is a parameter of the event, because HTTP parsing is outside the model.
- ServerConnection.ServerConnection.Close: the prepared close frame and whether its code is
  terminal are parameters; `CloseHandshake.CloseWith` computes them from the code and reason.
- ServerConnection.ServerConnection.ProcessClose: the outcome of extracting the close code and
  reason is a parameter; `CloseHandshake.ReceivePayload` computes it from the payload.
- ServerConnection.ServerConnection.HandleReadFrame: takes one frame that the processor has
  delivered; the loop over the bytes of a read is `Hybi13.Processor.ReadFrames`.
- The bodies of user handlers; a handler is recorded when it runs. Timers are the event that
  they fire. Loggers, ASIO, TLS, transports and HTTP parsing are outside.
- ServerConnection.ServerConnection.SendCloseFrame: the prepared frame is a parameter, because
  close, its answer and protocol errors share the step; `CloseHandshake.PrepareClose` makes it.
  The close that a protocol error of the processor causes keeps its code as a parameter.
- PacketQueue.Bounded: assumes that no packet length added to the counter wraps, as
  PacketQueue.AdmittedBeyondMaximum shows it must; one class stands for the two queues of the
  singleton, whose code is the same.
- The R2CP serializer's writers: they compare an offset with the size of a vector that is
  still empty, so they always throw; the round trip is against the format the parser reads.
- R2CPParser.R2CPParser.ReadUint32: the logger calls of the parser are not modelled.
- EndToEnd.Delivered: one schedule, in which reception comes before processing; the others are
  `EndToEnd.DeliveredInterleaved`.
- EndToEnd.ProcessPackets: the robot modules and the responses they produce.
- Base64Codec.Base64Decode: for lengths within `int`, as its counters require.
- Md5.State.Append: `md5_process` is any function of the four words and a block; memory is
  copied byte by byte. Lengths are those an address space can hold.
- The second base64 codec below `WebSocketPP/`, which is the same algorithm; the handshake
  keys of `hybi00.hpp`; `R2CPPacketProcessor`, and the thread plumbing and single-operator flag
  of `R2CPWebSocketServer.cpp`.
