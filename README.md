# Modbus serial ADU codec

This project models `QModbusSerialAdu` from Qt Serial Bus (src/serialbus/qmodbusadu_p.h). It is the framing and checksum codec of the two Modbus serial-line transmission modes in the MODBUS over Serial Line Specification and Implementation Guide V1.02:

- **RTU** (section 2.5.1): the address byte, the PDU and a CRC-16 (section 2.5.1.2), all binary.
- **ASCII** (section 2.5.2): ':' followed by the hex text of the address, the PDU and an LRC (section 2.5.2.2), ended by "\r" and a delimiter.

The model has three parts.

- **Checksum engine** (`Checksums`, Checksums.dfy):
  - `CalculateLrc` follows the source's loop: it adds signed `char`s into a wrapping 32-bit accumulator.
  - `CalculateCrc` follows pycrc's bit-by-bit-fast loops; its inner mask loop is `CrcShiftInByte`.
  - `CrcReflect` is crc_reflect.
  - Each method is proved equal to a specification function: `Lrc`, `Crc`, `Reversing` or `Reflected`.
  - Lemmas about those functions state what the checksums guarantee: the LRC completes the byte sum, ignores byte order and catches any one-byte error. The CRC has the CRC-16/MODBUS check values and catches every single-bit error.
- **Decoder** (`ModbusSerial.Decode` and the `ModbusSerial.SerialAdu` datatype, SerialAdu.dfy): the constructor and the read-only accessors `size`, `data`, `rawSize`, `rawData`, `serverAddress`, `pdu`, `checksum` and `matchingChecksum`. The ADU is a value because its two byte arrays are set once in the constructor and never changed.
- **Encoder** (`ModbusSerial.Create`): it appends step by step like create(), is proved equal to the function `ModbusSerial.Frame`, and is tied to the decoder by the round-trip and re-encoding lemmas in `SerialAduProperties` (SerialAduProperties.dfy).

The Qt pieces the source relies on are defined concretely from Qt's documented behaviour:

- `Bytes.Mid` and `Bytes.Left`: QByteArray::mid and left, including a negative or too large length.
- `Hex.ToHex` and `Hex.FromHex`: toHex writes lower case. fromHex skips non-hex characters and makes a lone leading digit a byte of its own.
- `ModbusSerial.BigEndian`: QDataStream's big-endian quint16.

Bytes are the integers 0..255. The CRC register is a `bv16`, and the inner-loop mask is a `bv32` (the source's `qint32 i`).

## Model

| member | source | states |
|---|---|---|
| Checksums.Lrc | src/serialbus/qmodbusadu_p.h:80-86 | the LRC added to the sum of the bytes gives 0 modulo 256 |
| Checksums.CalculateLrc | src/serialbus/qmodbusadu_p.h:80-86 | the loop over the first `len` bytes returns the LRC of those bytes, although it adds signed chars into a 32-bit accumulator that wraps around |
| Checksums.LrcCompletesSum | src/serialbus/qmodbusadu_p.h:80-86 | the bytes followed by their LRC sum to 0 modulo 256, and the LRC of no bytes is 0 |
| Checksums.LrcIgnoresOrder | src/serialbus/qmodbusadu_p.h:77-78 | two byte sequences that are permutations of each other have the same LRC |
| Checksums.LrcDetectsByteError | src/serialbus/qmodbusadu_p.h:80-86 | changing any one byte to a different value changes the LRC |
| Checksums.CrcShiftInByte | src/serialbus/qmodbusadu_p.h:107-114 | the mask loop 0x01, 0x02, ..., 0x80, with the bit step of lines 108-113 written inline, feeds the byte's bits into the register least significant first; each pass is one `CrcBitStep`, which shifts left and adds the polynomial 0x8005 exactly when the register's top bit and the input bit differ |
| Checksums.CalculateCrc | src/serialbus/qmodbusadu_p.h:98-119 | the nested loops, the final reflection and the byte swap return `Crc` of the first `len` bytes: the register after all the bytes from 0xFFFF, bit-reversed and then byte-swapped |
| Checksums.CrcReflect | src/serialbus/qmodbusadu_p.h:137-149 | for every `len`, the result is what the loop's recurrence gives after `len - 1` steps; for `len` 16 it is the bit reversal of the input |
| Checksums.ReversingReflects | src/serialbus/qmodbusadu_p.h:143-148 | fifteen steps of crc_reflect's recurrence, started from bit 0, reverse all sixteen bits |
| Checksums.ReflectedBit | src/serialbus/qmodbusadu_p.h:137-149 | reflection moves bit j to bit 15 - j |
| Checksums.ReflectedTwice | src/serialbus/qmodbusadu_p.h:137-149 | reflecting twice gives the value back |
| Checksums.CrcOfNothing | src/serialbus/qmodbusadu_p.h:104-118 | calculateCRC of no bytes is 0xFFFF |
| Checksums.CrcCheckValue | src/serialbus/qmodbusadu_p.h:100-118 | calculateCRC of the ASCII digits "123456789" is 0x374B, which is the CRC-16/MODBUS check value 0x4B37 byte-swapped |
| Checksums.CrcOfReadRequest | src/serialbus/qmodbusadu_p.h:104-118 | calculateCRC of 01 03 00 00 00 01 is 0x840A, so the frame ends 84 0A |
| Checksums.CrcByteUnrolled | src/serialbus/qmodbusadu_p.h:107-114 | one byte is eight register steps, one for each mask from 0x01 to 0x80 |
| Checksums.StepInjective | src/serialbus/qmodbusadu_p.h:108-113 | for a fixed input bit, different registers stay different after one step |
| Checksums.StepSeparates | src/serialbus/qmodbusadu_p.h:108-113 | from the same register, different input bits give different registers |
| Checksums.CrcBelowInjective | src/serialbus/qmodbusadu_p.h:107-114 | registers that differ before a byte still differ after it |
| Checksums.CrcBelowFlip | src/serialbus/qmodbusadu_p.h:107-114 | two bytes that differ in one bit drive the register alike until that bit's mask and apart from then on |
| Checksums.CrcRegisterKeepsApart | src/serialbus/qmodbusadu_p.h:105-116 | once the registers differ, the same following bytes keep them different |
| Checksums.CrcRegisterDetectsBitFlip | src/serialbus/qmodbusadu_p.h:104-116 | flipping one bit of one byte changes the final register |
| Checksums.CrcDetectsBitFlip | src/serialbus/qmodbusadu_p.h:98-119 | flipping any one bit of any byte changes calculateCRC's result |
| Hex.FromHexToHex | src/serialbus/qmodbusadu_p.h:129 | fromHex decodes the text toHex writes back to the same bytes |
| Hex.ToHexFromHex | src/serialbus/qmodbusadu_p.h:35 | a lower-case hex text with an even count of digits decodes to half as many bytes, and toHex writes that text back |
| ModbusSerial.Decode | src/serialbus/qmodbusadu_p.h:31-36 | the definition of the constructor: an RTU frame is its own payload, an ASCII frame is hex-decoded between its first byte and its last two. Its properties are stated by `SerialAduProperties.DecodeKeepsRaw`, `AsciiDecodeStrips` and `RoundTrip` |
| ModbusSerial.SerialAdu.Size | src/serialbus/qmodbusadu_p.h:38-42 | the definition of size(): the payload length less one trailer byte (ASCII) or two (RTU). Stated by `SerialAduProperties.DecodedLayout` and `ShortPayloadHasNoData` |
| ModbusSerial.SerialAdu.Data | src/serialbus/qmodbusadu_p.h:43 | the definition of data(): `left(size())` of the payload. Stated by `SerialAduProperties.DecodedLayout`, `ShortPayloadHasNoData` and `RoundTrip` |
| ModbusSerial.SerialAdu.RawSize | src/serialbus/qmodbusadu_p.h:45 | the definition of rawSize(): the length of the constructor's bytes. Stated by `SerialAduProperties.DecodeKeepsRaw` |
| ModbusSerial.SerialAdu.RawData | src/serialbus/qmodbusadu_p.h:46 | the definition of rawData(): the constructor's bytes unchanged. Stated by `SerialAduProperties.DecodeKeepsRaw` |
| ModbusSerial.SerialAdu.ServerAddress | src/serialbus/qmodbusadu_p.h:48-51 | the definition of serverAddress(): the first payload byte, unsigned, on a non-empty payload. Stated by `SerialAduProperties.RoundTrip` |
| ModbusSerial.SerialAdu.Pdu | src/serialbus/qmodbusadu_p.h:53-56 | the definition of pdu(): the function code at index 1 and `mid(2, size() - 2)`. Stated by `SerialAduProperties.RoundTrip` and `RtuReencode` |
| ModbusSerial.SerialAdu.Checksum | src/serialbus/qmodbusadu_p.h:58-64 | the definition of checksum(): the last byte (ASCII) or the last two read high byte first (RTU). Stated by `SerialAduProperties.DecodedLayout` |
| ModbusSerial.SerialAdu.MatchingChecksum | src/serialbus/qmodbusadu_p.h:66-71 | the definition of matchingChecksum(): the LRC or CRC over data() equals checksum(). Stated by `SerialAduProperties.RoundTrip`, `RtuReencode`, `AsciiReencode` and `RtuDetectsBitFlip` |
| ModbusSerial.Body | src/serialbus/qmodbusadu_p.h:125 | the definition of the streamed body: the address's low byte, the function code and the data. Stated by `SerialAduProperties.BodyLayout` |
| ModbusSerial.Frame | src/serialbus/qmodbusadu_p.h:121-134 | the definition of create()'s result, which `ModbusSerial.Create` is proved to return. Stated by `SerialAduProperties.RtuFrameLayout`, `AsciiFrameShape` and `RoundTrip` |
| ModbusSerial.Create | src/serialbus/qmodbusadu_p.h:121-134 | the buffer built by streaming the address and the PDU and appending the checksum is `Frame`, the value the lemmas below describe |
| SerialAduProperties.BodyLayout | src/serialbus/qmodbusadu_p.h:125 | the streamed body is the low byte of the address, the function code, then the data |
| SerialAduProperties.BigEndianValue | src/serialbus/qmodbusadu_p.h:131 | the two bytes written for a quint16, read high byte first, are that value |
| SerialAduProperties.RtuFrameLayout | src/serialbus/qmodbusadu_p.h:121-133 | an RTU frame is 4 bytes longer than the PDU data: address, function code, data, then calculateCRC over everything before it, high byte first |
| SerialAduProperties.AsciiFrameShape | src/serialbus/qmodbusadu_p.h:127-129 | an ASCII frame is ':', then 2·(data + 3) lower-case hex digits, then "\r" and the delimiter |
| SerialAduProperties.AsciiDecodeStrips | src/serialbus/qmodbusadu_p.h:31-36 | the constructor drops ':' and the last two bytes of an ASCII frame and decodes the hex between them, so toHex of the payload is that text |
| SerialAduProperties.DecodeKeepsRaw | src/serialbus/qmodbusadu_p.h:31-36 | rawData and rawSize are the constructor's bytes for both modes; an RTU payload is the raw frame, and an ASCII payload is at most half as long |
| SerialAduProperties.DecodedLayout | src/serialbus/qmodbusadu_p.h:38-64 | when the payload holds a trailer, data() has size() bytes, data() followed by the trailer is the payload, and checksum() is the trailer's last byte (ASCII, below 0x100) or its two bytes big-endian (RTU, below 0x10000) |
| SerialAduProperties.ShortPayloadHasNoData | src/serialbus/qmodbusadu_p.h:38-43 | a payload shorter than its trailer has a negative size() and an empty data() |
| SerialAduProperties.RtuRoundTrip | src/serialbus/qmodbusadu_p.h:31-71 | decoding an RTU frame from create() gives back the address modulo 256, the PDU and data() as the body, and its checksum matches |
| SerialAduProperties.AsciiRoundTrip | src/serialbus/qmodbusadu_p.h:31-71 | decoding an ASCII frame from create() gives back the address modulo 256, the PDU and data() as the body, and its checksum matches, whatever the delimiter |
| SerialAduProperties.RoundTrip | src/serialbus/qmodbusadu_p.h:121-134 | for both modes, decode after create gives back the address modulo 256 and the PDU, with a matching checksum |
| SerialAduProperties.RtuReencode | src/serialbus/qmodbusadu_p.h:31-71 | an RTU frame of at least 4 bytes whose checksum matches is what create() makes from its own address and PDU |
| SerialAduProperties.AsciiReencode | src/serialbus/qmodbusadu_p.h:31-71 | a lower-case ASCII frame of at least 3 payload bytes whose checksum matches is what create() makes from its own address, PDU and delimiter |
| SerialAduProperties.RtuDetectsBodyBitFlip | src/serialbus/qmodbusadu_p.h:66-71 | a bit flipped in the address or PDU of an RTU frame from create() makes matchingChecksum false |
| SerialAduProperties.RtuDetectsTrailerBitFlip | src/serialbus/qmodbusadu_p.h:66-71 | a bit flipped in the CRC trailer of an RTU frame from create() makes matchingChecksum false |
| SerialAduProperties.RtuDetectsBitFlip | src/serialbus/qmodbusadu_p.h:66-71 | flipping any one bit anywhere in an RTU frame from create() makes matchingChecksum false |
| SerialAduProperties.LrcOfReadRequest | src/serialbus/qmodbusadu_p.h:80-86 | the LRC of 01 03 00 00 00 01 is 0xFB |

## Left out

- QByteArray, QDataStream and QModbusPdu are not part of this model. Their behaviour that the core depends on is written out in `Bytes`, `Hex` and `ModbusSerial.BigEndian`:
  - mid, left, fromHex and toHex;
  - QDataStream writes a quint16 high byte first;
  - streaming a QModbusPdu writes its function code byte, then its data.
- QModbusPdu's own checks and its exception-code flag are not modelled. `ModbusSerial.SerialAdu.Pdu` keeps the function code as the unsigned byte at index 1. The source converts a signed `char` to the FunctionCode enum; that conversion is left out.
- `ModbusSerial.SerialAdu.Checksum`: the template parameter is left out. It is modelled for the type `matchingChecksum` uses in each mode: quint8 for ASCII and quint16 for RTU.
- The Q_ASSERT_X checks become preconditions. `ModbusSerial.SerialAdu.Pdu` and the RTU `ModbusSerial.SerialAdu.Checksum` also require two payload bytes, because the source reads index 1 and index n-2 without checking them.
- `ModbusSerial.SerialAdu.MatchingChecksum`: for RTU it requires two payload bytes, but the source asserts only a non-empty payload (line 67). With a one-byte RTU payload, size() is -1, so calculateCRC receives `len` -1, and its `while (len--)` loop then runs past the buffer instead of stopping. The precondition excludes this undefined behaviour, so the model says nothing about it.
- `Checksums.CalculateLrc` and `Checksums.CalculateCrc` require `0 <= len <= |data|`. A negative `len` or one past the buffer is undefined behaviour in the source.
- `ModbusSerial.Create` has no default argument, so callers pass `ModbusSerial.LineFeed` for the default delimiter.
- `SerialAduProperties.AsciiReencode` covers lower-case hex text only. create() writes lower case, and an upper-case frame re-encodes to different bytes.
- ASCII corruption detection is stated on the decoded bytes (`Checksums.LrcDetectsByteError`), not on the hex text of a frame.
- Implicit sharing, allocation and the cost of copies are not modelled; the ADU is a value.
- Inter-frame timing, request/reply matching, retries and Modbus TCP do not appear in this class and are not modelled.
