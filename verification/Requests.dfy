/** The link-test frame the library sends. */
module Requests {
  import opened Bytes
  import opened Wrappers
  import opened Stuffing
  import opened Framing
  import opened Encoding
  import Crc16

  const MSG_LINK_TEST: word := 0x5001
  const PROTOCOL_VERSION: word := 0x0207
  const POSITION_MASTER: int := 0x01A0

  /** The exceptions `build_request` raises: its own ValueError, the codec's, and `struct.error`. */
  datatype RequestError = WrongLength | NotAscii | PositionOutOfRange

  method BuildRequest(serial: Text, position: int := POSITION_MASTER)
    returns (r: Result<seq<byte>, RequestError>)
    ensures r == Request(serial, position)
  {
    hide Stuff, High, Low, AsciiByte, Crc16.Crc;
    if |serial| != SERIAL_LENGTH {
      return Err(WrongLength);
    }
    if !IsAscii(serial) {
      return Err(NotAscii);
    }
    if !(0 <= position < 0x1_0000) {
      return Err(PositionOutOfRange);
    }
    var body := Pack(MSG_LINK_TEST) + EncodeAscii(serial) + Pack(PROTOCOL_VERSION) + [0, 0]
                + Pack(ToWord(position)) + [0, 0] + [0, 0, 0, 0] + [0, 0];
    var crc := Crc16.Crc16Arc(body);
    var stuffed := StuffBytes(body + Pack(crc));
    ZeroPacks();
    assert body == Checked(RequestHeader(serial, ToWord(position)), []);
    return Ok([FRAME_START] + stuffed + [FRAME_END]);
  }

  lemma ZeroPacks()
    ensures Pack(0) == [0, 0]
    ensures ToWord(0) == 0
  {}

  function RequestHeader(serial: Text, position: word): (h: Header)
    requires |serial| == SERIAL_LENGTH && IsAscii(serial)
    ensures h.Valid()
  {
    Header(MSG_LINK_TEST, EncodeAscii(serial), PROTOCOL_VERSION, 0, position, 0, [0, 0, 0, 0])
  }

  /** The wire bytes of a request with no payload, or why there are none. */
  function Request(serial: Text, position: int): Result<seq<byte>, RequestError> {
    if |serial| != SERIAL_LENGTH then Err(WrongLength)
    else if !IsAscii(serial) then Err(NotAscii)
    else if !(0 <= position < 0x1_0000) then Err(PositionOutOfRange)
    else Ok(Wire(EncodeBody(RequestHeader(serial, ToWord(position)), [])))
  }

  /** The body sent, byte by byte: link test 5001, the serial, protocol version 0207, no direction, the position,
      and fourteen zero bytes with the length among them; then the checksum of all that. */
  lemma RequestBytes(serial: Text, position: int)
    requires Request(serial, position).Ok?
    ensures IsAscii(serial) && 0 <= position < 65536
    ensures var checked := [0x50, 0x01] + EncodeAscii(serial) + [0x02, 0x07, 0x00, 0x00] + Pack(ToWord(position))
                           + [0x00, 0x00, 0x00, 0x00, 0x00, 0x00, 0x00, 0x00];
            Request(serial, position).value ==
            [0x5E] + Stuff(checked + Pack(Crc16.Crc(checked))) + [0x7E]
    ensures POSITION_MASTER == 0x01A0
  {
    hide Stuff, High, Low, AsciiByte, Crc16.Crc;
    ZeroPacks();
    RequestWords();
    var checked := [0x50, 0x01] + EncodeAscii(serial) + [0x02, 0x07, 0x00, 0x00] + Pack(ToWord(position))
                   + [0x00, 0x00, 0x00, 0x00, 0x00, 0x00, 0x00, 0x00];
    assert Checked(RequestHeader(serial, ToWord(position)), []) == checked;
  }

  lemma RequestWords()
    ensures Pack(MSG_LINK_TEST) == [0x50, 0x01] && Pack(PROTOCOL_VERSION) == [0x02, 0x07]
  {}

  /** A request comes back from the parser unchanged, for every serial and position it accepts:
      delimiters, prefixes and all. */
  lemma RequestRoundTrip(serial: Text, position: int)
    ensures Request(serial, position).Ok? <==>
            |serial| == 19 && IsAscii(serial) && 0 <= position < 0x1_0000
    ensures |serial| != 19 ==> Request(serial, position) == Err(WrongLength)
    ensures |serial| == 19 && !IsAscii(serial) ==> Request(serial, position) == Err(NotAscii)
    ensures |serial| == 19 && IsAscii(serial) && !(0 <= position < 65536) ==>
              Request(serial, position) == Err(PositionOutOfRange)
    ensures match Request(serial, position)
            case Ok(wire) =>
              && Frames(wire) == [Frame(MSG_LINK_TEST, serial, ToWord(position), 0, [])]
              && Leftover(wire) == []
            case Err(_) => true
  {
    hide Wire, EncodeBody, Frames, Leftover;
    if Request(serial, position).Ok? {
      RoundTrip(RequestHeader(serial, ToWord(position)), []);
      AsciiRoundTrip(serial);
    }
  }
}
