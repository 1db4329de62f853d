/** The Modbus RTU frame codec of the sensor poller: building a Read Holding
    Registers request (function 0x03, section 6.3 of the "MODBUS Application
    Protocol Specification V1.1b3") and validating and decoding the
    response. Every multi-octet field is big-endian except the CRC trailer,
    which is little-endian. */
module FrameCodec {
  import opened Bytes
  import opened Checksum

  datatype Option<T> = None | Some(value: T)

  /** The shortest response the parser looks at: address, function code,
      byte count (or exception code) and the two CRC octets. */
  const MinResponseLength: nat := 5

  // ---------------------------------------------------------------------
  // CRC trailer

  /** The frame ends in the little-endian CRC of everything before it. This
      is the check the parser makes and the property the builder
      establishes. */
  predicate TrailerValid(frame: seq<byte>) {
    |frame| >= 2 &&
    ReadLittleEndian(frame[|frame| - 2..]) == Crc16(frame[..|frame| - 2])
  }

  /** `body` followed by its CRC, low octet first. */
  function AppendCrc(body: seq<byte>): (frame: seq<byte>)
    ensures |frame| == |body| + 2
    ensures frame[..|body|] == body
    ensures TrailerValid(frame)
  {
    var frame := body + LittleEndian(Crc16(body));
    assert frame[..|frame| - 2] == body;
    assert frame[|frame| - 2..] == LittleEndian(Crc16(body));
    frame
  }

  /** Conversely, a frame whose trailer checks out is its body with the CRC
      appended: the trailer check and `AppendCrc` are inverse. */
  lemma TrailerValidIsAppendCrc(frame: seq<byte>)
    requires TrailerValid(frame)
    ensures frame == AppendCrc(frame[..|frame| - 2])
  {
    var n := |frame|;
    var trailer := frame[n - 2..];
    LittleEndianRoundTrip(0, trailer);
    assert LittleEndian(Crc16(frame[..n - 2])) == trailer;
    assert frame == frame[..n - 2] + trailer;
  }

  /** Two frames with the same trailer and bodies of different CRCs cannot
      both check out. */
  lemma TrailerDependsOnBody(frame: seq<byte>, other: seq<byte>)
    requires TrailerValid(frame) && |other| == |frame|
    requires other[|other| - 2..] == frame[|frame| - 2..]
    requires Crc16(other[..|other| - 2]) != Crc16(frame[..|frame| - 2])
    ensures !TrailerValid(other)
  {
  }

  // ---------------------------------------------------------------------
  // Request

  /** The 8-octet request `send_modbus_request` writes: the header packed as
      `>B B H H` followed by its CRC as `<H`. `struct.pack` raises on a field
      out of range, so the ranges are the caller's obligation. */
  function BuildRequest(slaveAddress: int, functionCode: int, startAddress: int, regCount: int): (request: seq<byte>)
    requires 0 <= slaveAddress < 0x100 && 0 <= functionCode < 0x100
    requires 0 <= startAddress < 0x1_0000 && 0 <= regCount < 0x1_0000
    ensures |request| == 8
    ensures request[0] == slaveAddress && request[1] == functionCode
    ensures ReadBigEndian(request[2], request[3]) == startAddress
    ensures ReadBigEndian(request[4], request[5]) == regCount
    ensures ReadLittleEndian(request[6..]) == Crc16(request[..6])
    ensures TrailerValid(request)
  {
    var header: seq<byte> := [slaveAddress, functionCode] + BigEndian(startAddress) + BigEndian(regCount);
    var request := AppendCrc(header);
    assert request[..6] == header;
    assert request[2] == header[2] && request[3] == header[3];
    assert request[4] == header[4] && request[5] == header[5];
    request
  }

  /** The default request (slave 1, function 3, start 0, ten registers) is
      `01 03 00 00 00 0A C5 CD`: the CRC is the integer 0xCDC5, sent low
      octet first. */
  lemma DefaultRequestBytes()
    ensures Crc16([0x01, 0x03, 0x00, 0x00, 0x00, 0x0A]) == 0xCDC5
    ensures BuildRequest(1, 3, 0, 10) == [0x01, 0x03, 0x00, 0x00, 0x00, 0x0A, 0xC5, 0xCD]
  {
    hide Crc16, AppendCrc, BuildRequest;
    DefaultHeaderCrc();
    DefaultRequestFrame();
    DefaultHeaderFrame();
  }

  /** The default request is its packed header with the CRC appended. */
  lemma DefaultRequestFrame()
    ensures BuildRequest(1, 3, 0, 10) == AppendCrc([0x01, 0x03, 0x00, 0x00, 0x00, 0x0A])
  {
    hide Crc16, AppendCrc;
    DefaultHeaderOctets();
  }

  /** Appending the default header's CRC adds C5 CD. */
  lemma DefaultHeaderFrame()
    ensures AppendCrc([0x01, 0x03, 0x00, 0x00, 0x00, 0x0A]) == [0x01, 0x03, 0x00, 0x00, 0x00, 0x0A, 0xC5, 0xCD]
  {
    hide Crc16;
    DefaultHeaderCrc();
    DefaultHeaderOctets();
  }

  /** The packed header of the default request, and its CRC's octets. */
  lemma DefaultHeaderOctets()
    ensures [1, 3] + BigEndian(0) + BigEndian(10) == [0x01, 0x03, 0x00, 0x00, 0x00, 0x0A]
    ensures LittleEndian(0xCDC5) == [0xC5, 0xCD]
  {
  }

  /** The CRC of the default request header, from its final register. */
  lemma DefaultHeaderCrc()
    ensures Crc16([0x01, 0x03, 0x00, 0x00, 0x00, 0x0A]) == 0xCDC5
  {
    hide Fold, Value;
    DefaultHeaderRegister();
    RegisterCDC5();
  }

  /** The register after each octet of the default request header. */
  lemma DefaultHeaderRegister()
    ensures Fold(Preset, [0x01, 0x03, 0x00, 0x00, 0x00, 0x0A]) == 0xCDC5
  {
    var d: seq<byte> := [0x01, 0x03, 0x00, 0x00, 0x00, 0x0A];
    assert Octet(0x01) == 0x01 && Octet(0x03) == 0x03;
    assert Octet(0x00) == 0x00 && Octet(0x0A) == 0x0A;
    assert UpdateByte(0xFFFF, 0x01) == 0x807E;
    assert UpdateByte(0x807E, 0x03) == 0x2140;
    assert UpdateByte(0x2140, 0x00) == 0xF020;
    assert UpdateByte(0xF020, 0x00) == 0xD8F1;
    assert UpdateByte(0xD8F1, 0x00) == 0x8419;
    assert UpdateByte(0x8419, 0x0A) == 0xCDC5;
    assert Fold(0x8419, d[5..]) == 0xCDC5;
    assert Fold(0xD8F1, d[4..]) == 0xCDC5;
    assert Fold(0xF020, d[3..]) == 0xCDC5;
    assert Fold(0x2140, d[2..]) == 0xCDC5;
    assert Fold(0x807E, d[1..]) == 0xCDC5;
  }

  /** The register 0xCDC5 reads as the number 0xCDC5, four digits at a
      time. */
  lemma RegisterCDC5()
    ensures Value(0xCDC5, 16) == 0xCDC5
  {
    assert Value(0xC, 4) == 0xC;
    assert Value(0xCD, 8) == 0xCD;
    assert Value(0xCDC, 12) == 0xCDC;
  }

  // ---------------------------------------------------------------------
  // Register data

  /** The big-endian words of `data`, two octets each. */
  function WordsOf(data: seq<byte>): (words: seq<uint16>)
    requires |data| % 2 == 0
    ensures |words| == |data| / 2
    ensures forall i :: 0 <= i < |words| ==> words[i] == ReadBigEndian(data[2 * i], data[2 * i + 1])
    decreases |data|
  {
    if |data| == 0 then []
    else
      var rest := WordsOf(data[2..]);
      assert forall i :: 1 <= i < |rest| + 1 ==> data[2 * i] == data[2..][2 * (i - 1)];
      [ReadBigEndian(data[0], data[1])] + rest
  }

  /** The octets of `words`, each big-endian. */
  function EncodeWords(words: seq<uint16>): (data: seq<byte>)
    ensures |data| == 2 * |words|
    ensures forall i :: 0 <= i < |words| ==> data[2 * i..2 * i + 2] == BigEndian(words[i])
    decreases |words|
  {
    if |words| == 0 then []
    else
      var rest := EncodeWords(words[1..]);
      var data := BigEndian(words[0]) + rest;
      assert forall i :: 1 <= i < |words| ==> data[2 * i..2 * i + 2] == rest[2 * (i - 1)..2 * (i - 1) + 2];
      data
  }

  /** `struct.unpack('>%dH' % count, data)`: succeeds exactly when `data`
      holds `count` whole words, and then yields them in order. */
  function UnpackWords(count: nat, data: seq<byte>): (r: Option<seq<uint16>>)
    ensures r.Some? <==> |data| == 2 * count
    ensures r.Some? ==> |r.value| == count
    ensures r.Some? ==> forall i :: 0 <= i < count ==> r.value[i] == ReadBigEndian(data[2 * i], data[2 * i + 1])
  {
    if |data| != 2 * count then None else Some(WordsOf(data))
  }

  /** Decoding the encoding of a word list gives the list back. */
  lemma {:induction false} WordsRoundTrip(words: seq<uint16>)
    ensures WordsOf(EncodeWords(words)) == words
  {
    var data := EncodeWords(words);
    var back := WordsOf(data);
    forall i | 0 <= i < |words|
      ensures back[i] == words[i]
    {
      assert data[2 * i..2 * i + 2] == BigEndian(words[i]);
      assert data[2 * i] == BigEndian(words[i])[0];
    }
  }

  /** Encoding the words of an even-length octet string gives it back. */
  lemma {:induction false} EncodeWordsOf(data: seq<byte>)
    requires |data| % 2 == 0
    ensures EncodeWords(WordsOf(data)) == data
  {
    var words := WordsOf(data);
    var back := EncodeWords(words);
    forall k | 0 <= k < |data|
      ensures back[k] == data[k]
    {
      var i := k / 2;
      assert back[2 * i..2 * i + 2] == BigEndian(words[i]);
      assert back[k] == BigEndian(words[i])[k - 2 * i];
    }
  }

  // ---------------------------------------------------------------------
  // Response

  /** The outcome of `parse_modbus_response`, one constructor per exit. The
      diagnostic fields (`length`, `exceptionCode`, `expected`, `actual`,
      `received`, `computed`, `byteCount`) are what the source logs at that
      exit; the 4-tuple it returns is `AsTuple()`. */
  datatype ParseResult =
    | Parsed(address: byte, functionCode: byte, registers: seq<uint16>)
    | TooShort(length: nat)
    | DeviceException(address: byte, functionCode: byte, exceptionCode: byte)
    | LengthMismatch(address: byte, functionCode: byte, expected: nat, actual: nat)
    | ChecksumMismatch(address: byte, functionCode: byte, received: uint16, computed: uint16)
    | MalformedData(address: byte, functionCode: byte, byteCount: byte)
  {
    /** The tuple `(ok, address, function_code, registers)` the source
        returns, with Python's `None` as `None`. */
    function AsTuple(): (t: (bool, Option<byte>, Option<byte>, Option<seq<uint16>>))
      ensures t.0 <==> Parsed?
      ensures t.3.Some? <==> Parsed?
      ensures t.1.None? <==> TooShort?
      ensures t.2.None? <==> TooShort?
      ensures !TooShort? ==> t.1 == Some(address) && t.2 == Some(functionCode)
      ensures Parsed? ==> t.3 == Some(registers)
    {
      match this
      case Parsed(a, f, regs) => (true, Some(a), Some(f), Some(regs))
      case TooShort(_) => (false, None, None, None)
      case DeviceException(a, f, _) => (false, Some(a), Some(f), None)
      case LengthMismatch(a, f, _, _) => (false, Some(a), Some(f), None)
      case ChecksumMismatch(a, f, _, _) => (false, Some(a), Some(f), None)
      case MalformedData(a, f, _) => (false, Some(a), Some(f), None)
    }
  }

  /** `function_code & 0x80`: the exception flag of a function-code octet. */
  predicate IsException(functionCode: byte)
    ensures IsException(functionCode) <==> functionCode >= 0x80
  {
    (functionCode / 0x80) % 2 == 1
  }

  /** `parse_modbus_response`: a short-circuiting pipeline of length floor,
      exception flag, declared length, CRC, and word decoding. An exception
      response is reported without checking its CRC, and with the function
      code as received (flag still set). */
  function ParseResponse(response: seq<byte>): (r: ParseResult)
    ensures r.TooShort? <==> |response| < MinResponseLength
    ensures !r.TooShort? ==> r.address == response[0] && r.functionCode == response[1]
    ensures r.Parsed? ==> response[1] < 0x80
    ensures r.Parsed? ==> |response| == MinResponseLength + response[2]
    ensures r.Parsed? ==> TrailerValid(response)
    ensures r.Parsed? ==> response[2] % 2 == 0
    ensures r.Parsed? ==> |r.registers| == response[2] / 2
    ensures r.Parsed? ==> forall i :: 0 <= i < |r.registers| ==>
              r.registers[i] == response[3 + 2 * i] as int * 0x100 + response[4 + 2 * i] as int
  {
    hide Crc16;
    if |response| < MinResponseLength then
      TooShort(|response|)
    else
      var address := response[0];
      var functionCode := response[1];
      var dataLength := response[2];
      if IsException(functionCode) then
        DeviceException(address, functionCode, response[2])
      else
        var expectedLength := MinResponseLength + dataLength;
        if |response| != expectedLength then
          LengthMismatch(address, functionCode, expectedLength, |response|)
        else
          var crcReceived := ReadLittleEndian(response[|response| - 2..]);
          var crcCalculated := Crc16(response[..|response| - 2]);
          if crcReceived != crcCalculated then
            ChecksumMismatch(address, functionCode, crcReceived, crcCalculated)
          else
            var dataBlock := response[3..|response| - 2];
            match UnpackWords(dataLength / 2, dataBlock)
            case None => MalformedData(address, functionCode, dataLength)
            case Some(registers) =>
              assert forall i :: 0 <= i < |registers| ==>
                dataBlock[2 * i] == response[3 + 2 * i] && dataBlock[2 * i + 1] == response[4 + 2 * i];
              Parsed(address, functionCode, registers)
  }
}
