# Gree AC serial driver, modelled in Dafny

This project models the protocol core of the ESPHome `gree_ac` component,
`components/gree_ac/gree_ac.cpp`. It covers five parts:

- the frame checksum, a modulo-256 byte sum (`calculate_checksum_`);
- the byte-at-a-time frame reassembler (`read_uart_data_`), a three-state machine over the receive buffer;
- the frame validator (`verify_packet_`) and its two diagnostic counters;
- the state codec: the report decoder (`parse_state_packet_`), the command encoder (`control`) and the retransmission (`send_packet_`);
- the session state machine between INITIALIZING and READY (`loop`, `update`, `handle_packet_`).

The project has two layers.

- **The component** (`gree_ac.dfy`, class `GreeAc.GreeAC`). It holds the receive and command buffers as arrays, and the reassembler state, session, climate state, counters and timestamps as fields. Each method changes them in place as the C++ does. The methods that stand for a whole source function are proved to move the whole component, seen as the value `State()`, exactly as the matching function of module `Driver` says. The host-facing methods also keep the object invariant `Valid()`. These are the constructor, `VerifyPacket`, `ParseStatePacket`, `DecodeReportFields`, `HandlePacket`, `SendPacket`, `Control`, `ReceiveByte`, `BufferByte`, `DeliverFrame`, `ReadUartData`, `Loop` and `Update`. The steps of `control` are split out as smaller methods: `AssembleCommand`, `ResolveModeAndFan`, `ApplyPreset`, `ApplyTarget` and `ApplySwing`. Each states only the bytes, fields or return values it produces.
- **The transition functions** (`driver.dfy`, module `Driver`). There is one pure function per operation over a `DriverState` snapshot. The protocol's properties are lemmas about these functions. They are in `codec_proofs.dfy`, `control_proofs.dfy`, `reassembler_proofs.dfy`, `session_proofs.dfy` and `checksum.dfy`.

The header `gree_ac.h` is not part of this model. It supplies the start byte, the buffer capacities, the report type, the mode, fan, preset and swing codes, the temperature range and the two intervals. They are the fields of `Protocol.Config`, and `Config.Valid` states what the driver relies on:

- both buffer capacities are between 14 and 255 (they must reach past the display byte, 13);
- mode codes lie in the high nibble and fan codes in the low nibble;
- the codes of each table are distinct;
- `MIN <= MAX`, and `16 * (MAX - MIN) <= 255`, so an encoded temperature fits a byte;
- the header size plus 2 fits a byte.

Conventions:

- Temperatures are integers. A target temperature is in sixteenths of a degree, which is the unit's own resolution. The indoor temperature is in whole degrees.
- `millis()` becomes a `now` parameter.
- The serial input becomes a sequence of bytes.
- `write_array` appends the frame to `written`, the log of frames sent.
- `mark_failed` sets the health flag `failed`.

## Model

| member | source | states |
|---|---|---|
| `Wire.HighNibble` | components/gree_ac/gree_ac.cpp:152 | `b & 0xF0` is a multiple of 16 and the largest such value not above `b` |
| `Wire.LowNibble` | components/gree_ac/gree_ac.cpp:153 | `b & 0x0F` is below 16 and adds to the high nibble to give `b` back |
| `Wire.Pack` | components/gree_ac/gree_ac.cpp:269 | `new_mode \| new_fan_speed` keeps both nibbles: each can be read back unchanged |
| `Wire.SignedByte` | components/gree_ac/gree_ac.cpp:444 | the `int8_t` cast gives the value in [-128, 127] that is congruent to the byte modulo 256 |
| `Wire.Elapsed` | components/gree_ac/gree_ac.cpp:50 | `now - last` on `uint32_t`: the plain difference without wrap-around, the difference plus 2^32 across a wrap |
| `ChecksumUnit.Checksum` | components/gree_ac/gree_ac.cpp:346-357 | 0 for fewer than 3 bytes; otherwise, for frames up to 256 bytes, the sum of bytes 2 to `size-2` modulo 256 (the length byte included, the trailer excluded) |
| `ChecksumUnit.Position` | components/gree_ac/gree_ac.cpp:350 | `static_cast<uint8_t>(size - 1)`: equal to `size - 1` for frames up to 256 bytes, and always congruent to it modulo 256 |
| `ChecksumUnit.CalculateChecksum` | components/gree_ac/gree_ac.cpp:346-357 | the accumulating `uint32_t` loop returns `Checksum` of the message, without overflow, and changes nothing |
| `ChecksumUnit.SumRangeAgree` | components/gree_ac/gree_ac.cpp:353-354 | the sum over a window depends only on the bytes inside it |
| `ChecksumUnit.SumRangeUpdate` | components/gree_ac/gree_ac.cpp:353-354 | changing one byte inside the window changes the sum by exactly the difference |
| `ChecksumUnit.ChecksumIgnoresOutsideWindow` | components/gree_ac/gree_ac.cpp:350-354 | the two leading bytes and the trailer slot never affect the checksum |
| `ChecksumUnit.ChecksumReadsFrameOnly` | components/gree_ac/gree_ac.cpp:346-357 | the checksum of a frame reads only its first `size` bytes |
| `ChecksumUnit.ChecksumDetectsSingleByteChange` | components/gree_ac/gree_ac.cpp:346-357 | any single changed byte inside the window changes the checksum |
| `Protocol.ModeCode` | components/gree_ac/gree_ac.cpp:156-182 | the encoder has a high-nibble code for every host mode except HEAT_COOL, its `default` branch |
| `Protocol.FanCode` | components/gree_ac/gree_ac.cpp:185-204 | the encoder has a low-nibble code for every host fan mode the unit knows, and no code for the rest |
| `Protocol.ModeOfCode` | components/gree_ac/gree_ac.cpp:458-480 | a mode nibble the decoder recognises is the encoder's code for the mode it selects; an unrecognised nibble is no mode's code |
| `Protocol.FanOfCode` | components/gree_ac/gree_ac.cpp:482-498 | a fan nibble the decoder recognises is the encoder's code for the fan it selects; an unrecognised nibble is no fan's code |
| `Protocol.SwingCode` | components/gree_ac/gree_ac.cpp:245-266 | under valid constants each swing code the encoder writes belongs to exactly one swing mode |
| `Protocol.SwingOfCode` | components/gree_ac/gree_ac.cpp:518-540 | a swing byte the decoder recognises is the encoder's code for the swing it selects; an unrecognised byte is no swing's code |
| `Protocol.PresetOfCode` | components/gree_ac/gree_ac.cpp:500-516 | the decoder never reports another preset: BOOST exactly for a byte the encoder writes for BOOST under COOL or HEAT, NONE otherwise |
| `Protocol.PresetCode` | components/gree_ac/gree_ac.cpp:212-232 | the encoder writes a preset byte exactly for NONE or BOOST under the COOL or HEAT mode code: the normal or boost code of that mode |
| `Protocol.ModeTablesInverse` | components/gree_ac/gree_ac.cpp:459-480 | the decoder's mode switch and the encoder's mode switch are inverse on the six modes |
| `Protocol.FanTablesInverse` | components/gree_ac/gree_ac.cpp:483-498 | the decoder's fan switch and the encoder's fan switch are inverse on the four fan modes |
| `Protocol.SwingTablesInverse` | components/gree_ac/gree_ac.cpp:521-537 | the decoder's swing switch and the encoder's swing switch are inverse |
| `Protocol.PresetTablesInverse` | components/gree_ac/gree_ac.cpp:503-512 | a preset byte the encoder writes decodes to the preset requested |
| `Driver.FrameComplete` | components/gree_ac/gree_ac.cpp:311-315 | never complete before 3 bytes have arrived; once complete, the whole frame the length byte announces is buffered; with 3 or more bytes buffered, an incomplete frame is one still shorter than announced |
| `Driver.Classify` | components/gree_ac/gree_ac.cpp:359-384 | a frame is accepted exactly when it has at least 4 bytes, the report type in byte 3 and the checksum in its last byte |
| `Driver.CountVerdict` | components/gree_ac/gree_ac.cpp:361-381 | an accepted frame changes nothing; a rejected one adds exactly one to the two error counters together; nothing else changes |
| `Driver.DecodeTarget` | components/gree_ac/gree_ac.cpp:434-440 | the decoded target is either kept or `16*MIN + raw`, and then it is at most `16*MAX` |
| `Driver.DecodeIndoor` | components/gree_ac/gree_ac.cpp:443-451 | the indoor temperature is either kept or a value in [-10, 50] |
| `Driver.MinParseSize` | components/gree_ac/gree_ac.cpp:404-405 | `MIN_PACKET_SIZE + 1` leaves room for one data byte and the trailer beyond the header, and does not overflow a `uint8_t` under valid constants |
| `Driver.Parse` | components/gree_ac/gree_ac.cpp:402-431 | keeps the command buffer's length. Its behaviour is stated by `CodecProofs.ParseAfterAccept` and `CodecProofs.ParseReadsFrameOnly` |
| `Driver.DecodeReport` | components/gree_ac/gree_ac.cpp:433-542 | keeps the command buffer's length. Its behaviour is stated by `CodecProofs.DecodeEchoes`, `DecodeModeFanSwing`, `DecodePreset`, `DecodeTemperatures`, `DecodeFrame` and `DecodeIdempotent` |
| `Driver.Handle` | components/gree_ac/gree_ac.cpp:337-343 | after `handle_packet_` the session is READY, whatever the decode did |
| `Driver.FrameSize` | components/gree_ac/gree_ac.cpp:547-549 | the frame size is `3 + tx[2]` capped at the buffer capacity: it is one of the two and exceeds neither; it is at least 3 and at most 255 |
| `Driver.Transmit` | components/gree_ac/gree_ac.cpp:545-558 | keeps the command buffer's length and appends exactly one frame. What the frame holds is stated by `ControlProofs.TransmitFrame` |
| `Driver.ApplyModeRequest` | components/gree_ac/gree_ac.cpp:156-182 | the resolved mode code stays a high nibble and the fan code a low nibble. The mode request's effect is stated by `ControlProofs.AssembleModeFan` |
| `Driver.ApplyFanRequest` | components/gree_ac/gree_ac.cpp:185-204 | the fan code stays a low nibble. The fan request's effect is stated by `ControlProofs.AssembleModeFan` |
| `Driver.ApplyPresetRequest` | components/gree_ac/gree_ac.cpp:212-232 | keeps the buffer's length. The preset request's effect is stated by `ControlProofs.AssemblePreset` |
| `Driver.EnforceDryFan` | components/gree_ac/gree_ac.cpp:207-209 | under the DRY mode code the fan code is LOW; under any other it is unchanged |
| `Driver.TargetInRange` | components/gree_ac/gree_ac.cpp:237 | a target accepted by the range check has an offset above MIN, in sixteenths, that fits the temperature byte |
| `Driver.ControlHostMode` | components/gree_ac/gree_ac.cpp:270 | corrected: the recorded host mode is the one whose code was written, or the previous one for an unknown code |
| `Driver.Assemble` | components/gree_ac/gree_ac.cpp:146-270 | keeps the command buffer's length. Its effect is stated by `ControlProofs.AssembleKeepsUntouched`, `AssembleModeFan`, `AssembleTemperature`, `AssemblePreset`, `AssembleSwing` and `DecodeAssembled` |
| `Driver.Control` | components/gree_ac/gree_ac.cpp:138-285 | keeps the command buffer's length. Its effect is stated by `ControlProofs.ControlIgnoredUnlessReady`, `ControlFrame`, `ControlTrailer` and `ControlRoundTrip` |
| `Driver.Deliver` | components/gree_ac/gree_ac.cpp:317-323 | whatever the verdict, the reassembler is back in WAIT_SYNC at index 0, with the receive buffer and the command buffer's length kept. The outcome is stated by `ReassemblerProofs.DeliverOutcome` |
| `Driver.ReceiveStep` | components/gree_ac/gree_ac.cpp:301-325 | a byte received in RECEIVE keeps the buffers at their capacities and the index within the receive buffer. Its cases are stated by `ReassemblerProofs.OverflowResets`, `BufferFrameByte` and `FrameLastByte` |
| `Driver.RxStep` | components/gree_ac/gree_ac.cpp:290-333 | one byte keeps the buffers at their capacities and the index within the receive buffer, and stamps `last_packet_received_` |
| `Driver.Feed` | components/gree_ac/gree_ac.cpp:287-335 | the whole loop keeps the same bounds; any input stamps `last_packet_received_` with `now` |
| `Driver.Loop` | components/gree_ac/gree_ac.cpp:44-65 | keeps the buffers at their capacities and the index within the receive buffer. Its behaviour is stated by `SessionProofs.LoopHandshake`, `LoopTimeout` and `LoopKeepsReadyWhileReceiving` |
| `Driver.Update` | components/gree_ac/gree_ac.cpp:67-72 | keeps the command buffer's length. Its behaviour is stated by `SessionProofs.UpdateSendsOnlyWhenReady` |
| `CodecProofs.ValidatorCounters` | components/gree_ac/gree_ac.cpp:359-384 | too short or wrong type adds 1 to `invalid_packet_errors_` only; a bad trailer adds 1 to `checksum_errors_` only; acceptance changes nothing |
| `CodecProofs.ClassifyReadsFrameOnly` | components/gree_ac/gree_ac.cpp:359-384 | the verdict depends only on the first `size` bytes |
| `CodecProofs.CorruptionDetected` | components/gree_ac/gree_ac.cpp:369-381 | one corrupted byte of an accepted frame is rejected: as a wrong type in byte 3, as a checksum error anywhere from byte 2 to the trailer |
| `CodecProofs.ParseAfterAccept` | components/gree_ac/gree_ac.cpp:410-425 | the checksum and type re-checks of `parse_state_packet_` never fire on a frame `verify_packet_` accepted |
| `CodecProofs.DecodeEchoes` | components/gree_ac/gree_ac.cpp:453-455 | bytes 8 and 9 are copied into the command buffer whatever their values, byte 12 when present (539); no other byte changes |
| `CodecProofs.DecodeModeFanSwing` | components/gree_ac/gree_ac.cpp:458-539 | a known mode nibble, fan nibble or swing byte selects the host value whose code it is; an unknown one leaves the field alone |
| `CodecProofs.DecodePreset` | components/gree_ac/gree_ac.cpp:500-516 | the preset is BOOST exactly when byte 10 is present and is one of the two boost codes, and NONE otherwise |
| `CodecProofs.DecodeTemperatures` | components/gree_ac/gree_ac.cpp:433-451 | the target is taken exactly when `raw <= 16*(MAX-MIN)`; the indoor temperature exactly when byte 46 is present and its signed value lies in [30, 90]; otherwise each is kept |
| `CodecProofs.DecodeFrame` | components/gree_ac/gree_ac.cpp:542 | a decoded report adds 1 to `packets_received_` and changes nothing but the climate state and the command buffer |
| `CodecProofs.DecodeIdempotent` | components/gree_ac/gree_ac.cpp:433-542 | decoding the same report twice gives the state of one decode, counted twice |
| `CodecProofs.DecodeReadsFrameOnly` | components/gree_ac/gree_ac.cpp:433-542 | the decode reads only the first `size` bytes of the frame |
| `CodecProofs.ParseReadsFrameOnly` | components/gree_ac/gree_ac.cpp:402-543 | `parse_state_packet_` reads only the first `size` bytes of the frame |
| `CodecProofs.HandleReadsFrameOnly` | components/gree_ac/gree_ac.cpp:337-343 | `handle_packet_` reads only the first `size` bytes of the frame |
| `ControlProofs.TransmitFrame` | components/gree_ac/gree_ac.cpp:545-558 | the frame sent is the first `min(3 + tx[2], capacity)` bytes of the command buffer with a valid checksum in its last byte; the checksum is also left in the buffer; earlier frames are kept; the send is counted and timestamped; nothing else changes |
| `ControlProofs.AssembleKeepsUntouched` | components/gree_ac/gree_ac.cpp:146-270 | a request changes only bytes 7, 8, 9, 10, 12 and 13; with no preset, temperature or swing request that byte is unchanged; fan, indoor temperature and preset of the host state are unchanged |
| `ControlProofs.AssembleModeFan` | components/gree_ac/gree_ac.cpp:152-209 | the mode and fan codes default to the nibbles already in byte 8; a known request replaces them; DRY always runs the LOW fan, even when HIGH was requested |
| `ControlProofs.AssembleTemperature` | components/gree_ac/gree_ac.cpp:235-243 | a target temperature is taken exactly when within [MIN, MAX]: byte 9 holds its offset in sixteenths and the host target follows; otherwise both are kept |
| `ControlProofs.AssemblePreset` | components/gree_ac/gree_ac.cpp:212-232 | the preset byte changes only for a preset request under a resolved COOL or HEAT mode, and then it decodes to the requested preset |
| `ControlProofs.AssembleSwing` | components/gree_ac/gree_ac.cpp:245-266 | a swing request writes the unit's code for it and is recorded in the host state |
| `ControlProofs.ControlIgnoredUnlessReady` | components/gree_ac/gree_ac.cpp:139-142 | `control` changes nothing unless the session is READY |
| `ControlProofs.ControlFrame` | components/gree_ac/gree_ac.cpp:272-283 | when READY, `control` sends the assembled command buffer as one frame with a valid checksum, keeps the assembled climate state and resets byte 7 to 0; the session, the counters, the reassembler, the health flag and the other timestamps are unchanged |
| `ControlProofs.ControlTrailer` | components/gree_ac/gree_ac.cpp:146-150 | the frame sent carries byte 7 = 175 and byte 13 = 0x20 where it reaches them ahead of the trailer, and a valid checksum; afterwards byte 7 of the buffer is 0 (282) |
| `ControlProofs.DecodeAssembled` | components/gree_ac/gree_ac.cpp:152-270 | a frame carrying bytes 8 to 12 of an assembled command decodes back to the requested mode, target and swing. It decodes the requested fan whenever the mode the frame carries is not DRY, and LOW under DRY. It decodes the requested preset whenever that mode is COOL or HEAT, whether requested or already in the buffer |
| `ControlProofs.ControlRoundTrip` | components/gree_ac/gree_ac.cpp:138-285 | encode then decode: the frame `control` sends decodes, as a report, to the requested mode, target and swing. It decodes to the requested fan unless the mode sent is DRY, when it is LOW. It decodes to the requested preset whenever the mode sent is COOL or HEAT. It decodes to the host mode `control` records. A fan-only or preset-only request is covered |
| `ReassemblerProofs.RxStepKeepsInvariant` | components/gree_ac/gree_ac.cpp:290-333 | every byte keeps the reassembler invariant: nothing buffered in WAIT_SYNC; in RECEIVE the start byte at index 0 and no complete frame pending |
| `ReassemblerProofs.FeedKeepsInvariant` | components/gree_ac/gree_ac.cpp:287-335 | any byte stream keeps that invariant, so `rx_index_` never exceeds the buffer capacity |
| `ReassemblerProofs.NoiseIgnored` | components/gree_ac/gree_ac.cpp:292-297 | in WAIT_SYNC any byte other than the start byte changes nothing but the receive timestamp |
| `ReassemblerProofs.StartByteSyncs` | components/gree_ac/gree_ac.cpp:293-297 | the start byte is stored at index 0, sets the index to 1 and moves to RECEIVE |
| `ReassemblerProofs.OverflowResets` | components/gree_ac/gree_ac.cpp:302-308 | a byte that finds the buffer full is discarded and the reassembler resets to WAIT_SYNC with index 0 |
| `ReassemblerProofs.CompleteResets` | components/gree_ac/gree_ac.cpp:326-330 | COMPLETE resets to WAIT_SYNC with index 0 |
| `ReassemblerProofs.FeedAppend` | components/gree_ac/gree_ac.cpp:287-335 | reading a stream in two pieces is reading it at once |
| `ReassemblerProofs.FeedNoise` | components/gree_ac/gree_ac.cpp:287-297 | a stream without the start byte, read in WAIT_SYNC, changes nothing but the receive timestamp |
| `ReassemblerProofs.BufferFrameByte` | components/gree_ac/gree_ac.cpp:299-313 | a byte of a frame before its last is buffered at the next index and the frame is not yet complete |
| `ReassemblerProofs.FeedFramePrefix` | components/gree_ac/gree_ac.cpp:292-313 | every proper prefix of a well-sized frame is buffered and leaves the reassembler in RECEIVE |
| `ReassemblerProofs.FrameLastByte` | components/gree_ac/gree_ac.cpp:309-324 | the last byte of a well-sized frame completes it and the buffered frame is validated and delivered |
| `ReassemblerProofs.FeedFrame` | components/gree_ac/gree_ac.cpp:311-324 | a well-sized frame is passed to the validator exactly once, when its last byte arrives, and the reassembler resets whatever the verdict |
| `ReassemblerProofs.BufferOversizedByte` | components/gree_ac/gree_ac.cpp:301-315 | a byte of an oversized frame that still fits the buffer is stored after those before it, and the frame is not complete |
| `ReassemblerProofs.FeedOversizedPrefix` | components/gree_ac/gree_ac.cpp:292-315 | the first `k` bytes of an oversized frame, up to the buffer's capacity, are all buffered in RECEIVE |
| `ReassemblerProofs.FeedOversizedFrame` | components/gree_ac/gree_ac.cpp:287-335 | a frame whose length byte announces more than the receive buffer holds never reaches the validator. The byte that finds the buffer full resets the reassembler to WAIT_SYNC. No error is counted, and the session, the climate state and the command buffer are unchanged |
| `ReassemblerProofs.HandleIgnoresReassembler` | components/gree_ac/gree_ac.cpp:337-343 | what `handle_packet_` does to the climate state and the command buffer depends on nothing else |
| `ReassemblerProofs.DeliverOutcome` | components/gree_ac/gree_ac.cpp:317-323 | a buffered valid frame is handled as on its own and makes the session READY. Beyond that only the climate state, the command buffer and the report count change. Any other frame changes only the error counters, by one. Either way the reassembler resets |
| `ReassemblerProofs.FrameAfterNoise` | components/gree_ac/gree_ac.cpp:287-335 | a well-sized frame after noise is delivered once: a valid one is handled and sets READY, any other bumps one error counter and leaves the climate state, buffer and session alone; the reassembler ends in WAIT_SYNC; a rejected frame changes nothing but the error counters, the receive buffer and the receive timestamp |
| `SessionProofs.RxStepNeverSends` | components/gree_ac/gree_ac.cpp:287-335 | reading a byte sends nothing, leaves the handshake timer and health flag alone, and never demotes READY |
| `SessionProofs.RxStepPromotes` | components/gree_ac/gree_ac.cpp:317-319 | the session becomes READY only when a byte completes a frame the validator accepts |
| `SessionProofs.FeedNeverSends` | components/gree_ac/gree_ac.cpp:287-335 | reading any stream sends nothing, leaves the handshake timer and health flag alone, and never demotes READY |
| `SessionProofs.LoopHandshake` | components/gree_ac/gree_ac.cpp:48-55 | while INITIALIZING, once the retry interval has elapsed, the command buffer is sent as one frame of `FrameSize` bytes: its bytes before the trailer are the buffer's and its trailer is a valid checksum. The attempt is stamped `now`. Otherwise nothing is sent |
| `SessionProofs.LoopTimeout` | components/gree_ac/gree_ac.cpp:57-64 | READY is demoted to INITIALIZING and marked failed exactly when the timeout has elapsed since the last byte read; INITIALIZING stays so |
| `SessionProofs.LoopKeepsReadyWhileReceiving` | components/gree_ac/gree_ac.cpp:44-65 | a READY session that reads any byte in a tick is not demoted in that tick, for a positive timeout. This rests on the model's single `now` per call, where the source reads `millis()` again in `loop` (see Left out) |
| `SessionProofs.UpdateSendsOnlyWhenReady` | components/gree_ac/gree_ac.cpp:67-72 | `update` sends the command buffer while READY: one frame whose bytes before the trailer are the buffer's, with a valid checksum. Otherwise it changes nothing |
| `Findings.ControlHostModeAsWritten` | components/gree_ac/gree_ac.cpp:270 | as written: the mode code read as a position in the host enumeration, no mode beyond position 6 |
| `Findings.ControlHostModeAsWrittenMisrecords` | components/gree_ac/gree_ac.cpp:270 | as written, every request but OFF records a host mode other than the one requested |
| `Findings.ControlHostModeRecordsRequest` | components/gree_ac/gree_ac.cpp:156-182 | corrected, the recorded host mode is the one requested and the one a report with the same code decodes to |
| `GreeAc.GreeAC.constructor` | components/gree_ac/gree_ac.cpp:26-42 | the component starts INITIALIZING, waiting for sync, with no counts and no frames sent |
| `GreeAc.GreeAC.VerifyPacket` | components/gree_ac/gree_ac.cpp:359-384 | returns true exactly when `Classify` accepts, and bumps the counter `CountVerdict` names |
| `GreeAc.GreeAC.ParseStatePacket` | components/gree_ac/gree_ac.cpp:402-431 | moves the component as `Driver.Parse`: too short, bad checksum, wrong type, no temperature byte, or decode |
| `GreeAc.GreeAC.DecodeReportFields` | components/gree_ac/gree_ac.cpp:433-542 | writes the decoded climate state and the echoed bytes in place, as `Driver.DecodeReport` |
| `GreeAc.GreeAC.HandlePacket` | components/gree_ac/gree_ac.cpp:337-343 | parses in place and sets READY, as `Driver.Handle` |
| `GreeAc.GreeAC.SendPacket` | components/gree_ac/gree_ac.cpp:545-558 | writes the checksum into the buffer and sends the frame, as `Driver.Transmit`, keeping `Valid()` |
| `GreeAc.GreeAC.Control` | components/gree_ac/gree_ac.cpp:138-285 | ignores the request unless READY; otherwise assembles, sends and resets byte 7, as `Driver.Control`, keeping `Valid()` |
| `GreeAc.GreeAC.AssembleCommand` | components/gree_ac/gree_ac.cpp:146-270 | merges the request into the command buffer and the climate state in place, as `Driver.Assemble` |
| `GreeAc.GreeAC.ApplyPreset` | components/gree_ac/gree_ac.cpp:212-232 | writes the preset byte for the resolved mode, or leaves it alone |
| `GreeAc.GreeAC.ApplyTarget` | components/gree_ac/gree_ac.cpp:235-242 | a target within [MIN, MAX] is written to byte 9 as its offset in sixteenths and returned; any other request leaves the buffer alone and returns the current target |
| `GreeAc.GreeAC.ApplySwing` | components/gree_ac/gree_ac.cpp:245-266 | a swing request writes the unit's code for it to byte 12 and returns it; with none the buffer is unchanged and the current swing returned |
| `GreeAc.GreeAC.ResolveModeAndFan` | components/gree_ac/gree_ac.cpp:152-209 | returns the mode code and fan code after the mode request, the fan request and the DRY rule, and changes nothing |
| `GreeAc.GreeAC.ReceiveByte` | components/gree_ac/gree_ac.cpp:290-333 | one pass of the read loop keeps the reassembler invariant and moves the component as `Driver.RxStep` |
| `GreeAc.GreeAC.BufferByte` | components/gree_ac/gree_ac.cpp:299-324 | a byte in RECEIVE is buffered and a complete frame delivered, or the buffer overflows and resets |
| `GreeAc.GreeAC.DeliverFrame` | components/gree_ac/gree_ac.cpp:317-323 | validates the buffered frame, handles it when valid, and resets to WAIT_SYNC |
| `GreeAc.GreeAC.ReadUartData` | components/gree_ac/gree_ac.cpp:287-335 | the `while (available())` loop over the input keeps the invariant and moves the component as `Driver.Feed` |
| `GreeAc.GreeAC.Loop` | components/gree_ac/gree_ac.cpp:44-65 | reads the input, retries the handshake and demotes on timeout, as `Driver.Loop` |
| `GreeAc.GreeAC.Update` | components/gree_ac/gree_ac.cpp:67-72 | sends the command buffer only while READY, as `Driver.Update` |

## Left out

- `setup` (26-42) is modelled only by the constructor. The external sensor callback (37-40) is not modelled. The initial command buffer and climate state from the header are constructor parameters.
- `dump_config`, `traits` and `log_packet_` are not modelled: they are logging and host capabilities.
- The stubs `build_state_packet_`, `setup_*_callbacks_`, `update_swing_states_` and `on_*_change_` have no behaviour and are not modelled.
- `publish_state` is not modelled: it is a call into the host framework.
- `mark_failed` is modelled only as the health flag `failed`.
- `update_state_` is written by `control` but never read, so it is not modelled.
- components/gree_ac/climate.py and components/gree_ac/__init__.py are configuration glue and are not modelled.
- Serial I/O (`available`, `read_byte`, `write_array`) and the clock (`millis()`) are parameters: an input byte sequence, the log `written` and `now`.
- One `now` serves a whole call. The source reads `millis()` once per byte inside `read_uart_data_` and again in `loop`, so the model does not capture time passing within one call.
- SessionProofs.LoopKeepsReadyWhileReceiving: holds because of that single `now`. In the source, `loop` compares a later `millis()` with the stamp, so a timeout shorter than the time spent reading could still demote the session.
- Floating-point temperatures are integers in sixteenths of a degree, or in whole degrees for the indoor temperature. A request that is not a whole number of sixteenths is not modelled. The source's float truncation at 238 is therefore exact here.
- The counters are unbounded naturals; the wrap-around of their integer types in the source is not modelled.
- The values of the header constants are not part of this model. `Protocol.Config.Valid` states what the driver needs of them.
- `GreeAc.GreeAC.Control` calls `SendPacket` because lines 273-279 repeat the body of `send_packet_`.
- `Driver.ControlHostMode` replaces the cast at line 270 (see Findings). The as-written cast is modelled separately by `Findings.ControlHostModeAsWritten`.

## Findings

| source | as written | input that shows it | evidently intended | confidence | as-written member | corrected member |
|---|---|---|---|---|---|---|
| components/gree_ac/gree_ac.cpp:270 | `this->mode = static_cast<climate::ClimateMode>(new_mode)` stores the unit's mode code, a high-nibble value, as a position in ESPHome's `ClimateMode` enumeration (0 to 6) | a `control` call asking for COOL while READY: the code written to byte 8 is 0 or at least 16, so the host mode becomes OFF or no valid mode, never COOL; the same holds for every mode but OFF | record the host mode whose code was written, as the decoder's table at 459-480 does | high (not executed) | `Findings.ControlHostModeAsWritten`, `Findings.ControlHostModeAsWrittenMisrecords` | `Driver.ControlHostMode`, `Findings.ControlHostModeRecordsRequest` |
