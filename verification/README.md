# Modbus RTU frame codec of the RS485 sensor poller

`RS485.py` polls a temperature sensor over a Modbus RTU serial link and
stores what it reads in MySQL. Its correctness-relevant core is the frame
codec, modelled here as pure Dafny functions:

- **Checksum** (`checksum.dfy`): `crc16_modbus`, the Modbus CRC-16 (preset
  0xFFFF, reflected polynomial 0xA001) of section 2.5.1.2 and Appendix B of
  *MODBUS over Serial Line V1.02*. The Python register is an unbounded
  integer; the model holds it in a `bv32` and proves it never leaves
  0..0xFFFF, so the width never truncates anything. Octets enter the
  register, and the final register leaves it as an integer, digit by digit
  (`Bits`, `Value`) rather than by a cast. The source's two nested loops are
  modelled twice: as a recursive fold (`Fold` over `UpdateByte`, itself
  eight `ShiftStep`s via `ShiftSteps`) and as a method with loops
  (`ComputeCrc16`, inner loop `ShiftEight`) proved equal to it. Every step
  is injective on 16-bit registers, which proves that changing any one octet
  of the input changes the CRC.
- **Bytes** (`bytes.dfy`): octets and 16-bit words as bounded integers, and
  the big-endian (`>H`) and little-endian (`<H`) encodings `struct` uses.
- **FrameCodec** (`frame_codec.dfy`): the pure part of `send_modbus_request`
  (the `>B B H H` header plus its CRC as `<H`, a Read Holding Registers
  request of section 6.3 of the *MODBUS Application Protocol Specification
  V1.1b3*) and `parse_modbus_response`, whose outcome is a `ParseResult` with
  one constructor per exit of the Python function. `AsTuple()` gives back the
  `(ok, address, function_code, registers)` tuple the Python returns.
- **ResponseProperties** (`response_properties.dfy`): what each exit of the
  parser implies, the exact set of frames it accepts, and the round trip
  with the frame a device sends (`ResponseFrame`).

Points where the code's behaviour is easy to misread:

- The exception exit returns the function code as received, flag 0x80 still
  set (RS485.py:206); only the log line at RS485.py:205 masks it with 0x7F.
  The CRC of an exception response is never checked.
- The default request's CRC is the integer 0xCDC5, sent low octet first as
  `C5 CD` (RS485.py:174-175).
- `struct.pack('>H')` accepts a register count of 0 (RS485.py:172), so the
  request builder allows it, although section 6.3 of the *MODBUS Application
  Protocol Specification V1.1b3* allows 1 to 125 registers.
- A byte count of 0 yields success with no registers (RS485.py:224-227).
- The exception code is logged, not returned (RS485.py:204-206); the model
  keeps it (and the other logged diagnostics) in the failure constructors,
  while `AsTuple()` drops them exactly as the Python tuple does.

## Model

| member | source | states |
|---|---|---|
| Bytes.BigEndian | RS485.py:172 | a word packed as `>H` is two octets whose high-first value is the word |
| Bytes.LittleEndian | RS485.py:176 | a word packed as `<H` is two octets whose low-first value is the word |
| Bytes.ReadBigEndian | RS485.py:226 | a word read as `>H` has the first octet as its high octet and the second as its low octet |
| Bytes.ReadLittleEndian | RS485.py:215 | a word read as `<H` has the first octet as its low octet and the second as its high octet |
| Bytes.BigEndianRoundTrip | RS485.py:172-226 | packing then unpacking a `>H` word is the identity, in both directions |
| Bytes.LittleEndianRoundTrip | RS485.py:176-215 | packing then unpacking a `<H` word is the identity, in both directions |
| Checksum.ShiftStepFits16 | RS485.py:30-33 | one shift step (with or without the 0xA001 XOR) keeps the register below 2^16 |
| Checksum.ShiftStepsFits16 | RS485.py:29-33 | the inner loop of eight shift steps keeps the register below 2^16 |
| Checksum.UpdateByteFits16 | RS485.py:28-33 | XORing an octet in and shifting eight times keeps the register below 2^16 |
| Checksum.FoldFits16 | RS485.py:26-34 | the CRC register stays in 0..0xFFFF over any input, so the returned CRC is a 16-bit value |
| Checksum.Crc16Register | RS485.py:20-34 | `Crc16`, defined for every input including the empty one, is the integer in 0..0xFFFF whose sixteen binary digits are the register that `Fold` leaves: preset 0xFFFF, then per octet `UpdateByte` (XOR the octet in, then `ShiftSteps` of eight `ShiftStep`s, each a right shift with 0xA001 folded in when bit 0 was set) |
| Checksum.ShiftEight | RS485.py:29-33 | the inner loop over a mutable register performs exactly eight shift steps and keeps the register below 2^16 |
| Checksum.ComputeCrc16 | RS485.py:26-34 | the source's nested loops over a mutable register compute exactly the CRC fold |
| Checksum.OctetFits | RS485.py:28 | an octet XORed into the register touches only its low eight bits |
| Checksum.OctetInjective | RS485.py:28 | distinct octets XOR distinct bit patterns into the register |
| Checksum.ValueBits | RS485.py:34 | reading the low bits of a register as a number and writing that number's digits back gives the register |
| Checksum.RegisterValue | RS485.py:34 | a register below 2^16 is returned as an integer below 2^16 whose binary digits are the register |
| Checksum.ShiftStepInjective | RS485.py:30-33 | one shift step maps distinct 16-bit registers to distinct registers |
| Checksum.ShiftStepsInjective | RS485.py:29-33 | the inner loop maps distinct 16-bit registers to distinct registers |
| Checksum.UpdateByteInjective | RS485.py:28-33 | one outer-loop pass separates distinct registers fed the same octet, and distinct octets fed the same register |
| Checksum.FoldSeparatesStarts | RS485.py:27-33 | two distinct 16-bit registers stay distinct after folding in the same octets |
| Checksum.FoldDetectsOctetChange | RS485.py:27-33 | from any 16-bit register, changing one octet of the input changes the final register |
| Checksum.Crc16DetectsOctetChange | RS485.py:20-34 | two inputs of the same length that differ in exactly one octet have different CRCs |
| FrameCodec.AppendCrc | RS485.py:174-175 | appending the little-endian CRC keeps the body as a prefix, adds two octets, and yields a frame whose trailer check (`TrailerValid`, the test of RS485.py:215-218) holds |
| FrameCodec.TrailerValidIsAppendCrc | RS485.py:215-218 | conversely, a frame whose trailer check holds is its first octets with their CRC appended low octet first |
| FrameCodec.TrailerDependsOnBody | RS485.py:215-218 | two frames with the same trailer whose bodies have different CRCs cannot both pass the trailer check |
| FrameCodec.BuildRequest | RS485.py:172-176 | the request is 8 octets: address, function code, start address and register count big-endian, then the CRC of the first six octets low octet first; the parser's trailer check holds on it |
| FrameCodec.DefaultHeaderRegister | RS485.py:20-34 | the register after folding in the default header `01 03 00 00 00 0A` is 0xCDC5 |
| FrameCodec.DefaultHeaderCrc | RS485.py:172-174 | the CRC of the default header is the integer 0xCDC5 |
| FrameCodec.DefaultRequestBytes | RS485.py:166-176 | the default request (slave 1, function 3, start 0, count 10) is `01 03 00 00 00 0A C5 CD`, its CRC being the integer 0xCDC5 |
| FrameCodec.WordsOf | RS485.py:226 | an even-length data block decodes to half as many words, word i being octets 2i and 2i+1 big-endian |
| FrameCodec.UnpackWords | RS485.py:224-226 | unpacking `count` big-endian words succeeds exactly when the block holds 2*count octets, and then yields those words in order |
| FrameCodec.WordsRoundTrip | RS485.py:226 | decoding the big-endian encoding of a word list gives the list back |
| FrameCodec.EncodeWordsOf | RS485.py:226 | re-encoding the decoded words of an even-length block gives the block back |
| FrameCodec.ParseResult.AsTuple | RS485.py:195-230 | the returned tuple has `ok` exactly on success, registers exactly on success, and address and function code on every exit except the short-frame one |
| FrameCodec.IsException | RS485.py:203 | `function_code & 0x80` is set exactly when the function code is at least 0x80 |
| FrameCodec.ParseResponse | RS485.py:187-230 | only frames under five octets fail as too short; every other exit carries octets 0 and 1; success implies no exception flag, length 5 + byte count, a trailer that passes `TrailerValid` (the little-endian last two octets equal the CRC of the rest), an even byte count and registers equal to the big-endian words of the data block |
| ResponseProperties.ShortResponseRejected | RS485.py:193-195 | a frame under five octets yields `(False, None, None, None)` |
| ResponseProperties.ExceptionShortCircuit | RS485.py:203-206 | with at least five octets and the 0x80 flag set, the result is a device exception whatever the length and CRC, returning address and the unmasked function code and no registers |
| ResponseProperties.LengthMismatchExit | RS485.py:209-212 | with at least five octets, no exception flag and a length other than 5 + byte count, the result is a length mismatch reporting both lengths, returning address and function code and no registers |
| ResponseProperties.ChecksumMismatchExit | RS485.py:214-220 | with the declared length and a trailer that does not match, the result is a CRC mismatch reporting the received and computed CRCs, returning address and function code and no registers |
| ResponseProperties.OddByteCountRejected | RS485.py:222-230 | an odd byte count that passes the length and CRC checks fails at the decode stage with no registers |
| ResponseProperties.ParseSucceedsIff | RS485.py:192-227 | the parser succeeds exactly on frames of at least five octets with no exception flag, length 5 + byte count, an even byte count and a valid CRC trailer |
| ResponseProperties.ParseRoundTrip | RS485.py:209-227 | a device frame built from any address, a function code below 0x80 and at most 127 words parses to the same address, function code and words, zero words included |
| ResponseProperties.ParsedIsCanonical | RS485.py:209-227 | every frame the parser accepts is exactly the device frame rebuilt from the decoded fields |
| ResponseProperties.TrailerTamperDetected | RS485.py:214-220 | replacing the CRC trailer of an accepted frame by any other two octets makes the parser fail at the CRC stage |
| ResponseProperties.BodyChangeBreaksTrailer | RS485.py:214-218 | changing one octet in front of a valid trailer makes the trailer check fail |
| ResponseProperties.TrailerChangeBreaksTrailer | RS485.py:214-218 | changing one octet of a valid trailer makes the trailer check fail |
| ResponseProperties.DataCorruptionDetected | RS485.py:192-220 | any single-octet change to an accepted frame is rejected: setting the exception flag in octet 1 gives a device exception, a changed byte count (octet 2) gives a length mismatch, and a change to any other octet gives a CRC mismatch |
| ResponseProperties.ExceptionExample | RS485.py:203-206 | `01 83 02` with any CRC octets is a device exception reported with function code 0x83 |
| ResponseProperties.OneRegisterExample | RS485.py:222-227 | `01 03 02 00 C8` with its CRC decodes to the single register 200 |

## Left out

- Serial port setup, buffer resets, writes, reads and sleeps (RS485.py:145-163, 179-183, 261-310): I/O and timing.
- MySQL connection, table creation, inserts and reconnect (RS485.py:11-17, 37-142): a foreign database library.
- The temperature scaling `registers[0] / 10.0` and console formatting (RS485.py:112, 287-290): floating point and presentation.
- The hex and error logging (RS485.py:183, 194, 205, 211, 219, 229): side effects; the logged values survive only as the diagnostic fields of the failure constructors.
- The main loop's filter that drops successful reads with no registers (RS485.py:282): caller policy, not codec behaviour.
- Detection of corruption spread over more than one octet (the CRC-16 also catches every burst of up to 16 bits and every odd number of flipped bits): it rests on the algebra of the CRC polynomial, which is not modelled. Changes confined to one octet are proved to be caught (`DataCorruptionDetected`), as is any change of the two-octet trailer (`TrailerTamperDetected`).
- Out-of-range request fields, on which `struct.pack` raises, are preconditions of `BuildRequest` rather than an error result.
