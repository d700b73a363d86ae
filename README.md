# slcan codec, modelled in Dafny

This project models the slcan codec of a CANable-style USB-to-CAN adapter firmware (`src/slcan.c`). Slcan is the
Lawicel ASCII serial-line CAN protocol. The codec has two halves:

- **Frame encoder** (`slcan_parse_frame`). It renders a received CAN frame as one ASCII line: a type character
  (`t`/`r`, upper case for an extended identifier), 3 or 8 identifier hex digits (most significant first), one DLC
  digit, two digits per data byte (high nibble first) and a carriage return. It returns the line length.
- **Command decoder** (`slcan_parse_str`). It rewrites bytes 1..len-1 of an incoming line in place, from ASCII hex to
  nibble values. It then dispatches on the raw first byte:
  - `O`, `C`, `S`, `M`/`m`, `A`/`a`, `V` and `E` are control commands;
  - `T`/`t`/`R`/`r` transmit a frame, whose identifier, DLC and data bytes the decoder rebuilds from the nibbles.

Both C functions work in place on byte buffers, so the model has the same shape:

- `Encoder.ParseFrame` fills an `array<byte>` with the C's passes: clear, write nibbles, ASCII pass, CR.
- `Decoder.ParseStr` rewrites an `array<byte>` in place and walks it with a running index.

Each method is proved against a specification function on sequences (`Encoder.EncodeFrame`, `Decoder.ParseCommand`).
The lemmas about those functions state what the protocol promises:

- the encoder's output format;
- each command's selection rule;
- each error case;
- the round trip between encoder and decoder, in both directions.

Instead of calling the CAN peripheral, the decoder returns a `Command` value:

- `Open`, `Close`;
- `SetBitrate(index)`, `SetSilent(bool)`, `SetAutoRetransmit(bool)`;
- `QueryVersion`, `QueryError`;
- `Transmit(header, data)`.

Every line the decoder refuses becomes a distinct `Error`: `InvalidCharacter`, `UnknownCommand`, `InvalidBitrate`,
`InvalidDlc` or `TruncatedInput`. The encoder refuses a frame with `InvalidDlc` or `IdentifierOutOfRange`.
`SlcanTypes.StatusCode` maps a decoder error to the C's `-1` and a success to `0`.
`DecoderProperties.StatusAtCReturnSites` shows that on hex lines long enough for every byte the C reads, this status
is `-1` exactly at the C's three refusal sites.

Files:

- `hex.dfy` (module `Hex`): bytes, nibbles, the hex digit codec, identifier digits, data-byte nibbles.
- `slcan_types.dfy` (module `SlcanTypes`): constants, header, command, error and result types.
- `encoder.dfy` (module `Encoder`): `slcan_parse_frame`.
- `decoder.dfy` (module `Decoder`): `slcan_parse_str`.
- `decoder_properties.dfy` (module `DecoderProperties`): per-command guarantees of the decoder.
- `roundtrip.dfy` (module `RoundTrip`): encoder and decoder are inverse.
- `scenarios.dfy` (module `Scenarios`): concrete lines.
- `as_written.dfy` (module `AsWritten`): the unchecked C parse, for the findings below.

Header constants. `slcan.h` and `can.h` are not part of this model. The model fixes these values:

- `SLCAN_STD_ID_LEN = 3` and `SLCAN_EXT_ID_LEN = 8`;
- `SLCAN_MTU = 30`, which is at least the longest line of 27 bytes;
- `CAN_BITRATE_INVALID = 9`, one past a nine-entry bitrate table.

The code is followed wherever a description of the protocol says otherwise:

- An extended identifier is always written as eight digits, so the extended remote frame with identifier 0x1ABCDE
  and no data is `R001ABCDE0\r`, not `R1ABCDE0\r` (`Scenarios.EncodeExtendedRemoteFrame`).
- The encoder masks the identifier to its digit count (12 or 32 bits), not to the CAN range of 11 or 29 bits. The
  model therefore refuses an identifier only when it does not fit its digits. The decoder likewise accepts standard
  identifiers up to 0xFFF.
- The C converts the whole line before it looks at the command byte. The model keeps that order, so a bad hex
  digit anywhere in the body refuses the line, even for `O`, `C`, `V` or `E`.

Hardening over the C, each modelled as an explicit error instead of the C's undefined or unchecked read:

- an empty line, and an `S`, `M`/`m` or `A`/`a` line without a digit, are `TruncatedInput`;
- a transmit line too short for its identifier, DLC or data is `TruncatedInput`;
- a non-hex body byte is `InvalidCharacter`;
- the encoder refuses a DLC above 8 (`InvalidDlc`) or an identifier that does not fit its digits
  (`IdentifierOutOfRange`) before it touches the buffer.

## Model

| member | source | states |
|---|---|---|
| `Hex.HexDigit` | src/slcan.c:73-80 | the ASCII pass maps 0-9 to '0'-'9' and 10-15 to 'A'-'F', always an upper-case hex digit |
| `Hex.NibbleOf` | src/slcan.c:106-117 | the body conversion of a hex digit is the nibble whose upper-case digit is that character ('a'-'f' and 'A'-'F' both give 10-15) |
| `Hex.DigitRoundTrip` | src/slcan.c:106-117 | converting the encoder's digit of a nibble gives back the nibble |
| `Hex.HexValuesOfHexString` | src/slcan.c:106-117 | a rendered nibble sequence is all hex digits and converts back to the same nibbles |
| `Hex.HexValues` | src/slcan.c:106-117 | one nibble per body character, each the value whose upper-case digit is that character |
| `Hex.HexString` | src/slcan.c:73-80 | one character per nibble, all upper-case hex digits |
| `Hex.HexStringOfHexValues` | src/slcan.c:73-80 | rendering the values of an upper-case hex line gives the line back |
| `Hex.FromNibbles` | src/slcan.c:220-225 | the accumulated identifier of k digits is below 16^k, so 8 digits fit in uint32_t |
| `Hex.FromNibblesSnoc` | src/slcan.c:223-224 | one more digit multiplies the identifier by 16 and adds the digit |
| `Hex.Nibbles` | src/slcan.c:53-59 | exactly id_len identifier digits; their values are fixed by Hex.NibbleAt and inverted by Hex.FromNibblesOfNibbles |
| `Hex.NibbleAt` | src/slcan.c:53-59 | identifier digit i is (id >> 4·(id_len-1-i)) & 0xF, most significant first |
| `Hex.ShiftedNibble` | src/slcan.c:56-57 | the shift-and-mask the encoder computes is that digit of Nibbles |
| `Hex.FromNibblesOfNibbles` | src/slcan.c:221-225 | accumulating the digits of an identifier that fits its width gives the identifier back |
| `Hex.NibblesOfFromNibbles` | src/slcan.c:53-59 | writing the digits of an accumulated identifier gives the digit sequence back |
| `Hex.DataNibbles` | src/slcan.c:66-70 | two nibbles per data byte; their placement is fixed by Hex.DataNibblesAt |
| `Hex.DataNibblesAt` | src/slcan.c:66-70 | data byte j is written as its high nibble at 2j and its low nibble at 2j+1 |
| `Hex.PackBytes` | src/slcan.c:242-246 | one byte per nibble pair; it inverts DataNibbles by Hex.PackDataNibbles and Hex.DataNibblesOfPack |
| `Hex.PackDataNibbles` | src/slcan.c:242-246 | rebuilding (hi << 4) + lo from the encoder's data nibbles gives the data bytes back |
| `Hex.DataNibblesOfPack` | src/slcan.c:242-246 | splitting the rebuilt bytes gives the data nibbles back |
| `Encoder.TypeChar` | src/slcan.c:30-48 | byte 0 is 't' for a standard data frame, 'r' for a standard remote frame, 'T'/'R' for extended ones |
| `Encoder.BodyNibbles` | src/slcan.c:53-70 | the encoder writes id_len identifier nibbles, one DLC nibble and two nibbles per byte of d, which EncodeFrame passes as the first DLC data bytes, so there are 2·DLC data nibbles |
| `Encoder.EncodeLine` | src/slcan.c:29-86 | the line is 3 + id_len + twice the length of d bytes long, starts with the type character and ends with CR; EncodeFrame passes the first DLC data bytes as d, so the length is id_len + 2·DLC + 3 |
| `Encoder.EncodeFrame` | src/slcan.c:20-87 | a frame is rendered exactly when its DLC is at most 8 and its identifier fits its digits; the line fits SLCAN_MTU |
| `Encoder.EncodeLineShape` | src/slcan.c:38-86 | the line length is 1 + id_len + 1 + twice the length of d + 1 (2·DLC for the bytes EncodeFrame passes), byte 0 is the type character, the last byte is CR, the rest are upper-case hex digits |
| `Encoder.EncodeLineIdDigit` | src/slcan.c:53-60 | identifier digit i of the line is the hex digit of nibble (id >> 4·(id_len-1-i)) & 0xF |
| `Encoder.EncodeLineAt` | src/slcan.c:72-80 | byte 1+m of the line is the hex digit of nibble m |
| `Encoder.EncodeLineFromDigits` | src/slcan.c:72-86 | type character, the digit of every nibble and CR in order make up the encoded line |
| `Encoder.EncodeLineDataDigits` | src/slcan.c:62-80 | for every frame, including those without data, the byte after the identifier is the DLC digit; then each data byte j appears as the digit of its high nibble and the digit of its low nibble |
| `Encoder.EncodeLineDataByte` | src/slcan.c:66-80 | data byte j is written as the digit of d[j] >> 4 followed by the digit of d[j] & 0x0F |
| `Encoder.AsciiPass` | src/slcan.c:72-80 | the ASCII pass replaces each nibble of buf[1..msg_idx) by its hex digit and touches nothing else |
| `Encoder.WriteNibbles` | src/slcan.c:26-70 | the first pass writes the type character and the body nibbles and returns the index after them |
| `Encoder.ParseFrame` | src/slcan.c:20-87 | the buffer starts with the encoded line, the rest of the first SLCAN_MTU bytes is zero, and the length is returned; a frame that cannot be encoded leaves the buffer unchanged |
| `Decoder.TransmitBody` | src/slcan.c:205-246 | a transmit body is accepted exactly when it holds id_len digits, a DLC of at most 8 and that many data digit pairs; the frame has the command's RTR and IDE, an encodable identifier and zero bytes after the DLC |
| `Decoder.Dispatch` | src/slcan.c:119-203 | the first byte is refused as unknown exactly when it is not one of O C S M m A a V E T t R r |
| `Decoder.ParseCommand` | src/slcan.c:91-252 | an empty line is truncated; a line is refused for a bad character exactly when its body is not all hex digits |
| `Decoder.HexPass` | src/slcan.c:105-117 | the conversion pass succeeds exactly when buf[1..len) is all hex digits, then each byte holds its nibble; buf[0] and bytes from len on are unchanged |
| `Decoder.TransmitBodyOk` | src/slcan.c:219-246 | a long-enough body with DLC at most 8 transmits the accumulated identifier in the field IDE selects and the packed data |
| `Decoder.ParseTransmit` | src/slcan.c:205-251 | the identifier loop, DLC check and data loop compute the transmit result of the converted body |
| `Decoder.ParseStr` | src/slcan.c:91-252 | the result is that of ParseCommand on the line buf[..len); buf[0] and bytes past len are unchanged, and the body holds its nibble values unless a bad character was found |
| `DecoderProperties.UnknownCommandRefused` | src/slcan.c:200-202 | a line whose first byte is not a command byte is refused with status -1 whatever follows; with a hex body the reason is UnknownCommand |
| `DecoderProperties.StatusAtCReturnSites` | src/slcan.c:119-251 | on a hex line that holds every byte the C reads, the status is -1 exactly when the command byte is unknown (:202), an S index is at least CAN_BITRATE_INVALID (:137) or a transmit DLC exceeds 8 (:237), and 0 otherwise |
| `DecoderProperties.BitrateCommand` | src/slcan.c:133-140 | S selects bitrate n exactly when n < CAN_BITRATE_INVALID and is refused exactly otherwise |
| `DecoderProperties.SilentModeCommand` | src/slcan.c:143-153 | M/m select silent mode exactly when the first digit is 1 |
| `DecoderProperties.AutoRetransmitCommand` | src/slcan.c:156-166 | A/a enable automatic retransmission exactly when the first digit is 1 |
| `DecoderProperties.TransmitLineErrors` | src/slcan.c:233-238 | a transmit line is refused for its DLC exactly when its DLC digit exceeds 8, and as truncated exactly when it stops before the DLC or the announced data |
| `RoundTrip.DecodedHeader` | src/slcan.c:208-231 | the decoder keeps RTR, IDE, DLC and the selected identifier, and zeroes the other identifier field |
| `RoundTrip.DispatchTypeChar` | src/slcan.c:184-198 | the type character of a frame selects that frame's RTR and IDE in the decoder |
| `RoundTrip.TransmitBodyOfEncoded` | src/slcan.c:219-246 | parsing the encoder's body nibbles gives back the frame |
| `RoundTrip.DecodeEncodedFrame` | src/slcan.c:185-249 | decoding an encoded line without its CR gives the same RTR, IDE, identifier, DLC and data |
| `RoundTrip.EncodeFrameThenDecode` | src/slcan.c:20-87 | every line the encoder accepts decodes back to its frame |
| `RoundTrip.DispatchTransmit` | src/slcan.c:184-198 | a line read as a transmit command starts with the type character of the RTR and IDE it yields |
| `RoundTrip.BodyPartsRoundTrip` | src/slcan.c:219-246 | writing back the identifier, DLC and data bytes read from a body gives the body's nibbles again |
| `RoundTrip.BodyOfDecodedTransmit` | src/slcan.c:205-246 | a transmit body with nothing after its data is the encoder's body nibbles for the decoded frame |
| `RoundTrip.EncodeDecodedLine` | src/slcan.c:185-249 | an upper-case transmit line with no trailing bytes decodes to a frame that encodes back to the line plus CR |
| `Scenarios.StandardDataLine` | src/slcan.c:53-80 | frame 0x123 with data AB CD is written as the bytes of t1232ABCD and CR |
| `Scenarios.EncodeStandardDataFrame` | src/slcan.c:20-87 | the encoder's result for that frame is "t1232ABCD\r" |
| `Scenarios.ExtendedIdNibbles` | src/slcan.c:53-59 | 0x1ABCDE as eight digits is 001ABCDE |
| `Scenarios.ExtendedRemoteLine` | src/slcan.c:41-80 | the extended remote frame 0x1ABCDE without data is written as the bytes of R001ABCDE0 and CR |
| `Scenarios.EncodeExtendedRemoteFrame` | src/slcan.c:20-87 | the encoder's result for that frame is "R001ABCDE0\r" |
| `Scenarios.DecodeStandardDataFrame` | src/slcan.c:185-249 | t1232ABCD decodes to frame 0x123 with data AB CD |
| `Scenarios.DecodeControlCommands` | src/slcan.c:122-140 | O opens, S3 selects bitrate 3, S9 is refused |
| `Scenarios.DecodeBadTransmitLines` | src/slcan.c:233-246 | t1232AB is truncated and t1239 has an invalid DLC |
| `AsWritten.CNibble` | src/slcan.c:106-117 | the C's uint8_t conversion agrees with NibbleOf on hex digits |
| `AsWritten.CIdentifier` | src/slcan.c:220-225 | the C's identifier * 16 + byte, truncated to uint32_t after each step, always below 2^32; its value on hex lines is given by AsWritten.CIdentifierOfHexLine |
| `AsWritten.CIdentifierOfHexLine` | src/slcan.c:220-225 | on a line whose body is all hex digits, the C's uint32_t identifier over up to 8 digits never wraps and equals FromNibbles of those digits' values, the identifier the checked decoder builds |
| `AsWritten.DlcReadPastLine` | src/slcan.c:233-234 | with len 4, the line t123 gets its DLC from outside the line |
| `AsWritten.CIdentifierOfG` | src/slcan.c:106-117 | the C's identifier for t12G0 and for t1300 is 0x130 in both cases |
| `AsWritten.CheckedIdentifierOfGood` | src/slcan.c:220-231 | the checked decoder reads t1300 as a frame with identifier 0x130 |
| `AsWritten.NonHexDigitAccepted` | src/slcan.c:106-117 | the C reads t12G0 as identifier 0x130, the same as t1300 |

## Findings

| source | as written | input that shows it | evidently intended | confidence | as-written member | corrected member |
|---|---|---|---|---|---|---|
| src/slcan.c:221-246 | the transmit parse reads identifier, DLC and data at parse_loc without comparing parse_loc with len | buffer `t123` followed by 0x00 or 0x05, len 4: the DLC is 0 or 5, taken from outside the line | a line too short for its fields is refused | high; not executed | `AsWritten.DlcReadPastLine` | `Decoder.TransmitBody` |
| src/slcan.c:106-117 | every body byte is converted by subtraction, so a non-hex character becomes some value with no error | `t12G0`: 'G' becomes 16 and the identifier is 0x130, the same as for `t1300` | a body byte that is not a hex digit is refused | medium; not executed | `AsWritten.NonHexDigitAccepted` | `Decoder.ParseCommand` |

## Left out

- `V` reply: sending the firmware version string `fw_id` over `CDC_Transmit_FS` is USB transport I/O built from
  build-time macros. `V` is modelled as the `QueryVersion` command only.
- `E` reply: formatting the error register with `snprintf_` and `error_reg()` needs an external printf library and a
  hardware register. `E` is modelled as the `QueryError` command only.
- Peripheral effects (`can_enable`, `can_disable`, `can_set_bitrate`, `can_set_silent`, `can_set_autoretransmit`,
  `can_tx`) are foreign calls into CAN hardware. They are returned as `Command` values, and `can_tx`'s result is
  not modelled (the C ignores it too).
- Header fields the codec never reads or writes, such as `TransmitGlobalTime`, are left out.
- RTR and IDE are two-valued types. The C's uint32_t RTR can hold other values, which leave byte 0 at '\0' before
  the `-= 32`; the types rule that case out. Likewise, any IDE other than `CAN_ID_EXT` counts as standard in the C.
- Integer widths: the C's `uint8_t` indexes and `len`, and its `int8_t` length result, are modelled as unbounded
  naturals. Every length the codec produces is at most 27, so nothing wraps. A `len` above 255 is not excluded.
- `Decoder.HexPass` and `Decoder.ParseStr`: on `InvalidCharacter` the contract says only that each body byte is
  either unchanged or converted, not which prefix was converted. The C converts every byte and never stops.
- `Encoder.EncodeFrame`: refuses an identifier only when it does not fit its 3 or 8 digits (standard up to 0xFFF,
  extended up to 0xFFFFFFFF), following the C's masking, not the CAN ranges of 11 and 29 bits.
- `Decoder.TransmitBody`: accepts any identifier its 3 or 8 digits spell, likewise not limited to 11 or 29 bits.
- `DecoderProperties.StatusAtCReturnSites`: covers only lines with an all-hex body that hold every byte the C reads.
  On other lines the model refuses where the C reads garbage or bytes past the line; for example, for `OG` the C opens
  the channel and returns 0.
