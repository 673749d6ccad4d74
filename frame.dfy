/** The request frame that `find_scale` and `send_tcp` build with the same
    expression (gluescales_lamiflex.py:63 and :93), factored into one function:
    the marker `F8 55 CE`, the message length as big-endian unsigned 16 bits,
    the message, and `crc16` of the message. */
module Frame {
  import opened Bits
  import opened StructPack
  import opened Checksum

  /** The frame marker (lines 61 and 92). */
  const Header: seq<byte> := [0xF8, 0x55, 0xCE]

  /** The discovery command broadcast by `find_scale` (line 62): one zero byte. */
  const PollCommand: seq<byte> := [0x00]

  /** The command `main` sends to read the weight (line 205). */
  const WeightCommand: seq<byte> := [0xA0]

  /** `HEADER + struct.pack('>H', len(message)) + message + crc16(message)`.
      Python evaluates left to right, so a message too long for `'>H'` raises
      before the checksum is computed. */
  function EncodeRequest(message: seq<byte>): (r: Result<seq<byte>>)
    ensures r.Ok? <==> |message| <= 0xFFFF && Crc16Result(message).Ok?
    ensures r.Ok? ==>
      && |r.value| == |message| + 7
      && r.value[..3] == Header
      && UInt16BE(r.value[3..5]) == |message|
      && r.value[5..5 + |message|] == message
      && r.value[5 + |message|..] == Crc16Result(message).value
  {
    match PackUInt16BE(|message|)
    case Err(e) => Err(e)
    case Ok(length) =>
      match Crc16Result(message)
      case Err(e) => Err(e)
      case Ok(crc) =>
        var f := Header + length + message + crc;
        assert f[..3] == Header && f[3..5] == length;
        assert f[5..5 + |message|] == message && f[5 + |message|..] == crc;
        Ok(f)
  }

  datatype Option<T> = None | Some(value: T)

  /** Reading a request frame back, as the device must: check the marker,
      take the length from bytes 3-4, the message after it, and accept the
      frame only if the trailing two bytes are the message's `crc16`. */
  function ParseRequest(frame: seq<byte>): Option<seq<byte>>
  {
    if |frame| < 7 || frame[..3] != Header then None
    else
      var n := UInt16BE(frame[3..5]);
      if |frame| != n + 7 then None
      else
        var message := frame[5..5 + n];
        if Crc16Result(message) == Ok(frame[5 + n..]) then Some(message) else None
  }

  /** The message is recoverable from every frame built for it. */
  lemma RequestRoundTrip(message: seq<byte>)
    requires EncodeRequest(message).Ok?
    ensures ParseRequest(EncodeRequest(message).value) == Some(message)
  {
  }

  /** Conversely, every frame the device would accept is exactly the frame
      built for the message it carries. */
  lemma ParsedRequestIsEncoded(frame: seq<byte>)
    requires ParseRequest(frame).Some?
    ensures EncodeRequest(ParseRequest(frame).value) == Ok(frame)
  {
    var n := UInt16BE(frame[3..5]);
    var message := frame[5..5 + n];
    PackUnpackUInt16BE(frame[3..5]);
    assert frame == Header + frame[3..5] + message + frame[5 + n..];
  }

  /** Which messages can be framed at all: because `crc16` raises unless the
      message's big-endian value is at most 0x7FFF, only such messages (with
      any number of leading zero bytes) have a frame. */
  lemma EncodableRequests(message: seq<byte>)
    ensures EncodeRequest(message).Ok? <==> |message| <= 0xFFFF && UIntBE(message) <= 0x7FFF
  {
    Crc16ClosedForm(message);
  }

  /** The two frames the program sends: the discovery datagram (line 63) and
      the weight request over TCP (lines 93 and 205). */
  lemma CommandFrames()
    ensures EncodeRequest(PollCommand) == Ok([0xF8, 0x55, 0xCE, 0x00, 0x01, 0x00, 0x00, 0x00])
    ensures EncodeRequest(WeightCommand) == Ok([0xF8, 0x55, 0xCE, 0x00, 0x01, 0xA0, 0x00, 0xA0])
  {
    Crc16SingleByte(0x00);
    Crc16SingleByte(0xA0);
    assert PackUInt16BE(1) == Ok([0x00, 0x01]);
    assert Header + [0x00, 0x01] + PollCommand + [0x00, 0x00]
        == [0xF8, 0x55, 0xCE, 0x00, 0x01, 0x00, 0x00, 0x00];
    assert Header + [0x00, 0x01] + WeightCommand + [0x00, 0xA0]
        == [0xF8, 0x55, 0xCE, 0x00, 0x01, 0xA0, 0x00, 0xA0];
  }
}
