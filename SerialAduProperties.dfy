/** What the serial ADU promises: create() and the constructor undo each
    other, the frames have the layout of the MODBUS serial line guide, and
    the checksums catch corrupted frames. */
module SerialAduProperties {
  import opened Bytes
  import opened Hex
  import opened Checksums
  import opened ModbusSerial

  /** The two big-endian bytes of a quint16 read back as that value. */
  lemma BigEndianValue(v: bv16)
    ensures (BigEndian(v)[0] as int) * 256 + BigEndian(v)[1] == v as int
  {
  }

  lemma IntOfBits(a: bv16)
    ensures (a as int) as bv16 == a
  {
  }

  /** Different 16-bit values are different numbers. */
  lemma IntOfBitsInjective(a: bv16, b: bv16)
    requires a != b
    ensures a as int != b as int
  {
    IntOfBits(a);
    IntOfBits(b);
  }

  /** Two bytes read big-endian give back the bytes QDataStream writes. */
  lemma BigEndianOfBytes(v: bv16, hi: Byte, lo: Byte)
    requires v as int == (hi as int) * 256 + lo
    ensures BigEndian(v) == [hi, lo]
  {
  }

  /** The body of a frame holds the address, the function code and the
      data, in that order. */
  lemma BodyLayout(serverAddress: int, pdu: ModbusPdu)
    ensures |Body(serverAddress, pdu)| == |pdu.data| + 2
    ensures Body(serverAddress, pdu)[0] == serverAddress % 256
    ensures Body(serverAddress, pdu)[1] == pdu.functionCode
    ensures Body(serverAddress, pdu)[2..] == pdu.data
  {
  }

  /** An RTU frame: address, function code, data, then calculateCRC's
      value over everything before it, high byte first. */
  lemma RtuFrameLayout(serverAddress: int, pdu: ModbusPdu, delimiter: Byte)
    ensures var f := Frame(Rtu, serverAddress, pdu, delimiter);
      && |f| == |pdu.data| + 4
      && f[0] == serverAddress % 256
      && f[1] == pdu.functionCode
      && f[2..|f| - 2] == pdu.data
      && (f[|f| - 2] as int) * 256 + f[|f| - 1] == Crc(f[..|f| - 2]) as int
  {
    var body := Body(serverAddress, pdu);
    var f := Frame(Rtu, serverAddress, pdu, delimiter);
    assert f[..|f| - 2] == body;
    assert f[2..|f| - 2] == body[2..];
    BigEndianValue(Crc(body));
  }

  /** An ASCII frame: ':', two lower-case hex digits for each byte of the
      address, function code, data and LRC, then "\r" and the delimiter. */
  lemma AsciiFrameShape(serverAddress: int, pdu: ModbusPdu, delimiter: Byte)
    ensures var f := Frame(Ascii, serverAddress, pdu, delimiter);
      && |f| == 2 * (|pdu.data| + 3) + 3
      && f[0] == Colon
      && f[|f| - 2] == CarriageReturn
      && f[|f| - 1] == delimiter
      && forall i :: 1 <= i < |f| - 2 ==> IsLowerHexDigit(f[i])
  {
    var body := Body(serverAddress, pdu);
    var h := ToHex(body + [Lrc(body)]);
    var f := Frame(Ascii, serverAddress, pdu, delimiter);
    assert f == [Colon] + h + [CarriageReturn, delimiter];
    forall i | 1 <= i < |f| - 2
      ensures IsLowerHexDigit(f[i])
    {
      assert f[i] == h[i - 1];
    }
  }

  /** The ASCII constructor strips ':' and "\r" plus the delimiter and
      decodes the hex text between them. */
  lemma AsciiDecodeStrips(h: seq<Byte>, delimiter: Byte)
    requires |h| % 2 == 0
    requires forall i :: 0 <= i < |h| ==> IsLowerHexDigit(h[i])
    ensures var adu := Decode(Ascii, [Colon] + h + [CarriageReturn, delimiter]);
      && 2 * |adu.payload| == |h|
      && ToHex(adu.payload) == h
  {
    var raw := [Colon] + h + [CarriageReturn, delimiter];
    assert Mid(raw, 1, |raw| - 3) == h;
    ToHexFromHex(h);
  }

  /** The constructor keeps the frame it was given, and an RTU frame is its
      own payload. */
  lemma DecodeKeepsRaw(kind: Type, raw: seq<Byte>)
    ensures Decode(kind, raw).kind == kind
    ensures Decode(kind, raw).RawData() == raw
    ensures Decode(kind, raw).RawSize() == |raw|
    ensures kind == Rtu ==> Decode(kind, raw).payload == raw
    ensures kind == Ascii ==> 2 * |Decode(kind, raw).payload| <= |raw|
  {
  }

  /** data() is the payload up to the checksum and the trailer is the
      rest; the trailer value fits the checksum's width. */
  lemma DecodedLayout(adu: SerialAdu)
    requires |adu.payload| >= TrailerSize(adu.kind)
    ensures |adu.Data()| == adu.Size() >= 0
    ensures adu.Data() + adu.payload[adu.Size()..] == adu.payload
    ensures |adu.payload[adu.Size()..]| == TrailerSize(adu.kind)
    ensures adu.payload != [] && adu.kind == Ascii ==>
      adu.Checksum() == adu.payload[adu.Size()] && adu.Checksum() < 0x100
    ensures adu.kind == Rtu ==>
      adu.Checksum() == (adu.payload[adu.Size()] as int) * 256 + adu.payload[adu.Size() + 1]
      && adu.Checksum() < 0x1_0000
  {
  }

  /** A payload too short for its checksum has no data. */
  lemma ShortPayloadHasNoData(adu: SerialAdu)
    requires |adu.payload| < TrailerSize(adu.kind)
    ensures adu.Size() < 0 && adu.Data() == []
  {
  }

  /** Decoding an RTU frame made by create() gives back the address, the
      PDU and a matching checksum. */
  lemma RtuRoundTrip(serverAddress: int, pdu: ModbusPdu, delimiter: Byte)
    ensures var adu := Decode(Rtu, Frame(Rtu, serverAddress, pdu, delimiter));
      && |adu.payload| >= 2
      && adu.ServerAddress() == serverAddress % 256
      && adu.Pdu() == pdu
      && adu.Data() == Body(serverAddress, pdu)
      && adu.MatchingChecksum()
  {
    var body := Body(serverAddress, pdu);
    var f := Frame(Rtu, serverAddress, pdu, delimiter);
    var adu := Decode(Rtu, f);
    assert adu.Size() == |body|;
    assert adu.Data() == body;
    assert adu.payload[2..|body|] == pdu.data;
    BigEndianValue(Crc(body));
  }

  /** Decoding an ASCII frame made by create() gives back the address, the
      PDU and a matching checksum, whatever the delimiter. */
  lemma AsciiRoundTrip(serverAddress: int, pdu: ModbusPdu, delimiter: Byte)
    ensures var adu := Decode(Ascii, Frame(Ascii, serverAddress, pdu, delimiter));
      && |adu.payload| >= 2
      && adu.ServerAddress() == serverAddress % 256
      && adu.Pdu() == pdu
      && adu.Data() == Body(serverAddress, pdu)
      && adu.MatchingChecksum()
  {
    var body := Body(serverAddress, pdu);
    var payload := body + [Lrc(body)];
    var f := Frame(Ascii, serverAddress, pdu, delimiter);
    assert Mid(f, 1, |f| - 3) == ToHex(payload);
    FromHexToHex(payload);
    var adu := Decode(Ascii, f);
    assert adu.payload == payload;
    assert adu.Data() == body;
    assert adu.payload[2..|body|] == pdu.data;
  }

  /** The round trip of either mode. */
  lemma RoundTrip(kind: Type, serverAddress: int, pdu: ModbusPdu, delimiter: Byte)
    ensures var adu := Decode(kind, Frame(kind, serverAddress, pdu, delimiter));
      && |adu.payload| >= 2
      && adu.ServerAddress() == serverAddress % 256
      && adu.Pdu() == pdu
      && adu.MatchingChecksum()
  {
    if kind == Ascii {
      AsciiRoundTrip(serverAddress, pdu, delimiter);
    } else {
      RtuRoundTrip(serverAddress, pdu, delimiter);
    }
  }

  /** Re-encoding a well-formed RTU frame whose checksum matches gives the
      frame back byte for byte. */
  lemma RtuReencode(raw: seq<Byte>, delimiter: Byte)
    requires |raw| >= 4
    requires Decode(Rtu, raw).MatchingChecksum()
    ensures var adu := Decode(Rtu, raw);
      Frame(Rtu, adu.ServerAddress(), adu.Pdu(), delimiter) == raw
  {
    var adu := Decode(Rtu, raw);
    var n := |raw|;
    var body := Body(adu.ServerAddress(), adu.Pdu());
    assert body == raw[..n - 2];
    BigEndianOfBytes(Crc(body), raw[n - 2], raw[n - 1]);
    assert raw == raw[..n - 2] + [raw[n - 2], raw[n - 1]];
  }

  /** Re-encoding a well-formed ASCII frame (lower-case hex, as create()
      writes it) whose checksum matches gives the frame back byte for
      byte, with its own delimiter. */
  lemma AsciiReencode(h: seq<Byte>, delimiter: Byte)
    requires |h| % 2 == 0 && |h| >= 6
    requires forall i :: 0 <= i < |h| ==> IsLowerHexDigit(h[i])
    requires var adu := Decode(Ascii, [Colon] + h + [CarriageReturn, delimiter]);
      adu.payload != [] && adu.MatchingChecksum()
    ensures var adu := Decode(Ascii, [Colon] + h + [CarriageReturn, delimiter]);
      && |adu.payload| >= 2
      && Frame(Ascii, adu.ServerAddress(), adu.Pdu(), delimiter)
        == [Colon] + h + [CarriageReturn, delimiter]
  {
    var raw := [Colon] + h + [CarriageReturn, delimiter];
    AsciiDecodeStrips(h, delimiter);
    var adu := Decode(Ascii, raw);
    AsciiPayloadRebuilds(adu);
  }

  /** An ASCII payload of at least three bytes whose LRC matches is the
      body create() streams for its own address and PDU, followed by the
      LRC of that body. */
  lemma AsciiPayloadRebuilds(adu: SerialAdu)
    requires adu.kind == Ascii && |adu.payload| >= 3 && adu.MatchingChecksum()
    ensures var body := Body(adu.ServerAddress(), adu.Pdu());
      body + [Lrc(body)] == adu.payload
  {
    var p := adu.payload;
    var n := |p|;
    var body := Body(adu.ServerAddress(), adu.Pdu());
    assert body == p[..n - 1];
    assert body + [Lrc(body)] == p;
  }

  /** A flipped bit in the address and PDU region changes the CRC over
      data() and leaves the trailer alone. */
  lemma RtuDetectsBodyBitFlip(serverAddress: int, pdu: ModbusPdu, delimiter: Byte, p: nat, k: bv8)
    requires p < |Body(serverAddress, pdu)| && k < 8
    ensures var f := Frame(Rtu, serverAddress, pdu, delimiter);
      !Decode(Rtu, f[p := FlipBit(f[p], k)]).MatchingChecksum()
  {
    var f := Frame(Rtu, serverAddress, pdu, delimiter);
    var body := Body(serverAddress, pdu);
    var adu := Decode(Rtu, f[p := FlipBit(f[p], k)]);
    assert adu.Data() == body[p := FlipBit(body[p], k)];
    assert adu.payload[|body|..] == BigEndian(Crc(body));
    BigEndianValue(Crc(body));
    CrcDetectsBitFlip(body, p, k);
    IntOfBitsInjective(Crc(body[p := FlipBit(body[p], k)]), Crc(body));
  }

  /** A flipped bit in the trailer changes the trailer and leaves the CRC
      over data() alone. */
  lemma RtuDetectsTrailerBitFlip(serverAddress: int, pdu: ModbusPdu, delimiter: Byte, p: nat, k: bv8)
    requires |Body(serverAddress, pdu)| <= p < |Frame(Rtu, serverAddress, pdu, delimiter)| && k < 8
    ensures var f := Frame(Rtu, serverAddress, pdu, delimiter);
      !Decode(Rtu, f[p := FlipBit(f[p], k)]).MatchingChecksum()
  {
    var f := Frame(Rtu, serverAddress, pdu, delimiter);
    var body := Body(serverAddress, pdu);
    var g := f[p := FlipBit(f[p], k)];
    var n := |g|;
    assert g[..n - 2] == body;
    BigEndianValue(Crc(body));
    TwoBytesInjective(f[n - 2], f[n - 1], g[n - 2], g[n - 1]);
  }

  /** Two bytes read big-endian determine the bytes. */
  lemma TwoBytesInjective(hi: Byte, lo: Byte, hi': Byte, lo': Byte)
    requires hi != hi' || lo != lo'
    ensures (hi as int) * 256 + lo != (hi' as int) * 256 + lo'
  {
  }

  /** Flipping any one bit of an RTU frame made by create() makes the
      decoded frame's checksum fail. */
  lemma RtuDetectsBitFlip(serverAddress: int, pdu: ModbusPdu, delimiter: Byte, p: nat, k: bv8)
    requires p < |Frame(Rtu, serverAddress, pdu, delimiter)| && k < 8
    ensures var f := Frame(Rtu, serverAddress, pdu, delimiter);
      !Decode(Rtu, f[p := FlipBit(f[p], k)]).MatchingChecksum()
  {
    if p < |Body(serverAddress, pdu)| {
      RtuDetectsBodyBitFlip(serverAddress, pdu, delimiter, p, k);
    } else {
      RtuDetectsTrailerBitFlip(serverAddress, pdu, delimiter, p, k);
    }
  }

  /** The LRC of the request "read one holding register at 0 from server
      1" is 0xFB: the bytes sum to 5. */
  lemma LrcOfReadRequest()
    ensures Lrc([0x01, 0x03, 0x00, 0x00, 0x00, 0x01]) == 0xFB
  {
    var s: seq<Byte> := [0x01, 0x03, 0x00, 0x00, 0x00, 0x01];
    assert s[..1][..0] == [];
    assert Sum(s[..1]) == 1;
    assert s[..2][..1] == s[..1];
    assert Sum(s[..2]) == 4;
    assert s[..3][..2] == s[..2];
    assert Sum(s[..3]) == 4;
    assert s[..4][..3] == s[..3];
    assert Sum(s[..4]) == 4;
    assert s[..5][..4] == s[..4];
    assert Sum(s[..5]) == 4;
    assert s[..5] == s[..|s| - 1];
    assert Sum(s) == 5;
  }
}
