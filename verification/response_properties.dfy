/** Properties of the response parser: what each exit implies, which frames
    it accepts, and the round trip with the frame a conforming device sends. */
module ResponseProperties {
  import opened Bytes
  import opened Checksum
  import opened FrameCodec

  /** The response a device sends to a Read Holding Registers request:
      address, function code, byte count, the registers big-endian, then the
      CRC of all of that, low octet first. */
  function ResponseFrame(address: byte, functionCode: byte, registers: seq<uint16>): (frame: seq<byte>)
    requires 2 * |registers| < 0x100
    ensures |frame| == MinResponseLength + 2 * |registers|
    ensures frame[0] == address && frame[1] == functionCode && frame[2] == 2 * |registers|
    ensures TrailerValid(frame)
  {
    AppendCrc([address, functionCode, 2 * |registers|] + EncodeWords(registers))
  }

  /** The frames the parser accepts, stated without reference to its
      pipeline: long enough, no exception flag, a length that matches the
      byte count, an even byte count, and a matching CRC trailer. */
  predicate WellFormedResponse(response: seq<byte>) {
    |response| >= MinResponseLength &&
    response[1] < 0x80 &&
    |response| == MinResponseLength + response[2] &&
    response[2] % 2 == 0 &&
    TrailerValid(response)
  }

  /** A response of fewer than five octets fails with neither address nor
      function code. */
  lemma ShortResponseRejected(response: seq<byte>)
    requires |response| < MinResponseLength
    ensures ParseResponse(response) == TooShort(|response|)
    ensures ParseResponse(response).AsTuple() == (false, None, None, None)
  {
  }

  /** A flagged function code fails at once, whatever the length and CRC,
      and reports the function code as received, flag included. */
  lemma ExceptionShortCircuit(response: seq<byte>)
    requires |response| >= MinResponseLength && response[1] >= 0x80
    ensures ParseResponse(response) == DeviceException(response[0], response[1], response[2])
    ensures ParseResponse(response).AsTuple() == (false, Some(response[0]), Some(response[1]), None)
  {
  }

  /** An odd byte count that passes the length and CRC checks fails at the
      decode stage, with no registers. */
  lemma OddByteCountRejected(response: seq<byte>)
    requires |response| >= MinResponseLength && response[1] < 0x80
    requires |response| == MinResponseLength + response[2]
    requires TrailerValid(response)
    requires response[2] % 2 == 1
    ensures ParseResponse(response) == MalformedData(response[0], response[1], response[2])
    ensures ParseResponse(response).AsTuple() == (false, Some(response[0]), Some(response[1]), None)
  {
  }

  /** The parser succeeds on exactly the well-formed frames. */
  lemma ParseSucceedsIff(response: seq<byte>)
    ensures ParseResponse(response).Parsed? <==> WellFormedResponse(response)
  {
    if WellFormedResponse(response) {
      var dataBlock := response[3..|response| - 2];
      assert |dataBlock| == 2 * (response[2] / 2);
    }
  }

  /** Any frame a device builds from a function code without the exception
      flag and at most 127 registers parses back to the same address,
      function code and registers; no registers gives an empty success. */
  lemma ParseRoundTrip(address: byte, functionCode: byte, registers: seq<uint16>)
    requires functionCode < 0x80 && 2 * |registers| < 0x100
    ensures ParseResponse(ResponseFrame(address, functionCode, registers)) == Parsed(address, functionCode, registers)
  {
    var prefix := [address, functionCode, 2 * |registers|] + EncodeWords(registers);
    var frame := ResponseFrame(address, functionCode, registers);
    assert frame[3..|frame| - 2] == EncodeWords(registers) by {
      assert frame[..|prefix|] == prefix;
    }
    WordsRoundTrip(registers);
  }

  /** Conversely, every frame the parser accepts is exactly the frame a
      device builds from the decoded fields. */
  lemma ParsedIsCanonical(response: seq<byte>)
    requires ParseResponse(response).Parsed?
    ensures
      var r := ParseResponse(response);
      2 * |r.registers| < 0x100 && response == ResponseFrame(r.address, r.functionCode, r.registers)
  {
    hide Crc16;
    var r := ParseResponse(response);
    var n := |response|;
    var dataBlock := response[3..n - 2];
    assert r.registers == WordsOf(dataBlock);
    EncodeWordsOf(dataBlock);
    var prefix := [r.address, r.functionCode, 2 * |r.registers|] + EncodeWords(r.registers);
    assert prefix == response[..n - 2];
    TrailerValidIsAppendCrc(response);
  }

  /** Replacing the CRC trailer of an accepted frame with any other two
      octets makes the parser fail at the CRC stage. */
  lemma TrailerTamperDetected(response: seq<byte>, trailer: seq<byte>)
    requires ParseResponse(response).Parsed?
    requires |trailer| == 2 && trailer != response[|response| - 2..]
    ensures
      var tampered := response[..|response| - 2] + trailer;
      ParseResponse(tampered).ChecksumMismatch?
  {
    var n := |response|;
    var tampered := response[..n - 2] + trailer;
    assert tampered[..n - 2] == response[..n - 2];
    assert tampered[n - 2..] == trailer;
    LittleEndianRoundTrip(0, trailer);
    LittleEndianRoundTrip(0, response[n - 2..]);
  }

  /** A response whose declared length disagrees with its actual length
      fails before the CRC is looked at, reporting both lengths. */
  lemma LengthMismatchExit(response: seq<byte>)
    requires |response| >= MinResponseLength && response[1] < 0x80
    requires |response| != MinResponseLength + response[2]
    ensures ParseResponse(response) == LengthMismatch(response[0], response[1], MinResponseLength + response[2], |response|)
    ensures ParseResponse(response).AsTuple() == (false, Some(response[0]), Some(response[1]), None)
  {
  }

  /** A response of the declared length whose trailer does not check out
      fails at the CRC stage, reporting the trailer as received and the CRC
      computed over the rest. */
  lemma ChecksumMismatchExit(response: seq<byte>)
    requires |response| >= MinResponseLength && response[1] < 0x80
    requires |response| == MinResponseLength + response[2]
    requires !TrailerValid(response)
    ensures
      var n := |response|;
      ParseResponse(response) ==
        ChecksumMismatch(response[0], response[1], ReadLittleEndian(response[n - 2..]), Crc16(response[..n - 2]))
    ensures ParseResponse(response).AsTuple() == (false, Some(response[0]), Some(response[1]), None)
    ensures ReadLittleEndian(response[|response| - 2..]) != Crc16(response[..|response| - 2])
  {
  }

  /** An update in front of the last two octets is an update of the body
      and leaves the trailer alone. */
  lemma UpdateInBody(frame: seq<byte>, k: nat, v: byte)
    requires k < |frame| - 2
    ensures frame[k := v][..|frame| - 2] == frame[..|frame| - 2][k := v]
    ensures frame[k := v][|frame| - 2..] == frame[|frame| - 2..]
  {
  }

  /** Changing one octet in front of a valid trailer invalidates it: the
      CRC of the body changes while the trailer stays. */
  lemma BodyChangeBreaksTrailer(frame: seq<byte>, k: nat, v: byte)
    requires TrailerValid(frame)
    requires k < |frame| - 2 && v != frame[k]
    ensures !TrailerValid(frame[k := v])
  {
    hide Crc16;
    UpdateInBody(frame, k, v);
    Crc16DetectsOctetChange(frame[..|frame| - 2], k, v);
    TrailerDependsOnBody(frame, frame[k := v]);
  }

  /** Changing one octet of a valid trailer invalidates it: the body and
      so its CRC stay, and the trailer reads as a different value. */
  lemma TrailerChangeBreaksTrailer(frame: seq<byte>, k: nat, v: byte)
    requires TrailerValid(frame)
    requires |frame| - 2 <= k < |frame| && v != frame[k]
    ensures !TrailerValid(frame[k := v])
  {
    var n := |frame|;
    var changed := frame[k := v];
    assert changed[..n - 2] == frame[..n - 2];
    assert changed[n - 2..] != frame[n - 2..] by {
      assert changed[n - 2..][k - (n - 2)] == v;
      assert frame[n - 2..][k - (n - 2)] == frame[k];
    }
    LittleEndianRoundTrip(0, changed[n - 2..]);
    LittleEndianRoundTrip(0, frame[n - 2..]);
  }

  /** Any single-octet change to an accepted frame is rejected, and the
      stage that rejects it depends only on where the change lands: setting
      the exception flag in the function code gives a device exception, a
      changed byte count gives a length mismatch, and every other change
      gives a CRC mismatch. */
  lemma DataCorruptionDetected(response: seq<byte>, k: nat, v: byte)
    requires ParseResponse(response).Parsed?
    requires k < |response| && v != response[k]
    ensures !ParseResponse(response[k := v]).Parsed?
    ensures k == 1 && v >= 0x80 ==>
              ParseResponse(response[k := v]) == DeviceException(response[0], v, response[2])
    ensures k == 2 ==>
              ParseResponse(response[k := v]) == LengthMismatch(response[0], response[1], MinResponseLength + v, |response|)
    ensures k != 2 && !(k == 1 && v >= 0x80) ==> ParseResponse(response[k := v]).ChecksumMismatch?
  {
    hide Crc16;
    var n := |response|;
    var changed := response[k := v];
    if k == 1 && v >= 0x80 {
      ExceptionShortCircuit(changed);
    } else if k == 2 {
      LengthMismatchExit(changed);
    } else {
      ParseSucceedsIff(response);
      if k < n - 2 {
        BodyChangeBreaksTrailer(response, k, v);
      } else {
        TrailerChangeBreaksTrailer(response, k, v);
      }
      assert changed[1] < 0x80 && changed[2] == response[2];
      ChecksumMismatchExit(changed);
    }
  }

  /** A device exception for function 3, exception code 2, is reported with
      function code 0x83, whatever its CRC octets. */
  lemma ExceptionExample(crcLow: byte, crcHigh: byte)
    ensures ParseResponse([0x01, 0x83, 0x02, crcLow, crcHigh]) == DeviceException(0x01, 0x83, 0x02)
  {
    ExceptionShortCircuit([0x01, 0x83, 0x02, crcLow, crcHigh]);
  }

  /** A one-register reply `01 03 02 00 C8` followed by its CRC decodes to
      the single register 200 (the sensor's 20.0 degrees, scaled by ten). */
  lemma OneRegisterExample()
    ensures
      var frame := AppendCrc([0x01, 0x03, 0x02, 0x00, 0xC8]);
      ParseResponse(frame) == Parsed(0x01, 0x03, [200])
  {
    assert EncodeWords([200]) == [0x00, 0xC8];
    ParseRoundTrip(0x01, 0x03, [200]);
  }
}
