/** QModbusSerialAdu: one Modbus frame of the serial line, in the RTU
    transmission mode (binary, CRC-16 trailer) or the ASCII mode (':',
    hex text with an LRC trailer, "\r" and a delimiter), as in sections
    2.5.1 and 2.5.2 of the MODBUS over Serial Line Specification and
    Implementation Guide V1.02. */
module ModbusSerial {
  import opened Bytes
  import opened Hex
  import opened Checksums

  /** QModbusSerialAdu::Type. */
  datatype Type = Ascii | Rtu

  /** A QModbusPdu as the serial ADU builds and streams it: the function
      code byte followed by the function's data. */
  datatype ModbusPdu = ModbusPdu(functionCode: Byte, data: seq<Byte>)

  const Colon: Byte := 0x3A
  const CarriageReturn: Byte := 0x0D
  const LineFeed: Byte := 0x0A

  /** The number of trailing checksum bytes of a mode. */
  function TrailerSize(kind: Type): nat
  {
    if kind == Ascii then 1 else 2
  }

  /** A decoded frame. `payload` is m_data (for ASCII, the bytes the hex
      text stands for), `raw` is m_rawData; neither changes after
      construction. */
  datatype SerialAdu = SerialAdu(kind: Type, payload: seq<Byte>, raw: seq<Byte>)
  {
    /** size(): the length of the address and PDU region, that is, the
        payload without its checksum; negative for a too short payload. */
    function Size(): int
    {
      |payload| - TrailerSize(kind)
    }

    /** data(): the address and PDU region. */
    function Data(): seq<Byte>
    {
      Left(payload, Size())
    }

    function RawSize(): int
    {
      |raw|
    }

    function RawData(): seq<Byte>
    {
      raw
    }

    /** serverAddress(): the first payload byte, unsigned. */
    function ServerAddress(): Byte
      requires payload != []
    {
      payload[0]
    }

    /** pdu(): the function code at index 1, and the bytes from index 2 up
        to the checksum. */
    function Pdu(): ModbusPdu
      requires |payload| >= 2
    {
      ModbusPdu(payload[1], Mid(payload, 2, Size() - 2))
    }

    /** checksum<T>(): the trailer, the last byte for ASCII, the last two
        bytes read big-endian for RTU. */
    function Checksum(): int
      requires payload != []
      requires kind == Rtu ==> |payload| >= 2
    {
      var n := |payload|;
      if kind == Ascii then payload[n - 1] as int
      else (payload[n - 2] as int) * 256 + payload[n - 1]
    }

    /** matchingChecksum(): the checksum computed over data() equals the
        trailer. */
    predicate MatchingChecksum()
      requires payload != []
      requires kind == Rtu ==> |payload| >= 2
    {
      if kind == Ascii then Lrc(Data()) == Checksum()
      else Crc(Data()) as int == Checksum()
    }
  }

  /** The constructor: an RTU frame is its own payload; an ASCII frame
      drops its first byte and its last two, and the rest is hex-decoded. */
  function Decode(kind: Type, raw: seq<Byte>): SerialAdu
  {
    if kind == Ascii then SerialAdu(Ascii, FromHex(Mid(raw, 1, |raw| - 3)), raw)
    else SerialAdu(Rtu, raw, raw)
  }

  /** The address byte and the streamed PDU: the region both checksums
      cover. quint8(serverAddress) keeps the low byte. */
  function Body(serverAddress: int, pdu: ModbusPdu): seq<Byte>
  {
    [serverAddress % 256, pdu.functionCode] + pdu.data
  }

  /** The two bytes QDataStream writes for a quint16: high byte first. */
  function BigEndian(v: bv16): seq<Byte>
  {
    [(v as int) / 256, (v as int) % 256]
  }

  /** What create() returns. */
  function Frame(kind: Type, serverAddress: int, pdu: ModbusPdu, delimiter: Byte): seq<Byte>
  {
    var body := Body(serverAddress, pdu);
    if kind == Ascii then [Colon] + ToHex(body + [Lrc(body)]) + [CarriageReturn, delimiter]
    else body + BigEndian(Crc(body))
  }

  /** create(): streams the address and the PDU into a buffer, appends the
      checksum computed over the buffer, and for ASCII hex-encodes the
      result between ':' and "\r" plus the delimiter. */
  method Create(kind: Type, serverAddress: int, pdu: ModbusPdu, delimiter: Byte)
    returns (frame: seq<Byte>)
    ensures frame == Frame(kind, serverAddress, pdu, delimiter)
  {
    var result: seq<Byte> := [];
    result := result + [serverAddress % 256];
    result := result + [pdu.functionCode] + pdu.data;
    assert result == Body(serverAddress, pdu);
    if kind == Ascii {
      var lrc := CalculateLrc(result, |result|);
      assert result[..|result|] == result;
      result := result + [lrc];
      frame := [Colon] + ToHex(result) + [CarriageReturn, delimiter];
    } else {
      var crc := CalculateCrc(result, |result|);
      assert result[..|result|] == result;
      result := result + BigEndian(crc);
      frame := result;
    }
  }
}
