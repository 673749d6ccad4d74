/** One run of `main` (gluescales_lamiflex.py:195-216) and the row selection
    of `check_and_insert_data` (lines 169-177), with the sockets and the
    database replaced by what they deliver: the outcome of the UDP discovery
    in `find_scale` and the outcome of the TCP exchange in `send_tcp`. */
module Cycle {
  import opened Bits
  import opened StructPack
  import Frame
  import opened Weight

  /** The `(host, port)` pair `recvfrom` reports for the scale's reply. */
  datatype Address = Address(host: string, port: int)

  /** What the UDP discovery of `find_scale` (lines 66-79) delivers: the
      address of the scale that answered, the `None` its `except socket.timeout`
      turns a timeout into, or a socket error that nothing there catches (one
      raised by the socket set-up and `sendto` before the `try`, or by
      `recvfrom` other than a timeout). */
  datatype Discovery = Found(addr: Address) | TimedOut | DiscoveryError

  /** What the TCP exchange of `send_tcp` (lines 96-102) delivers: the bytes of
      its single `recv`, possibly none, or a socket error that `connect`,
      `sendall` or `recv` raised. */
  datatype Exchange = Received(data: seq<byte>) | SocketError

  /** The values handed to the INSERT of lines 174 and 177. */
  datatype Row = Row(weight: int, division: int, stable: int, connected: int)

  /** An exception that escapes `main`: nothing in it catches one. */
  datatype Raised =
    | FramingFailed(error: Error)  // building a request frame raised struct.error
    | DiscoveryFailed              // the UDP discovery raised
    | ConnectionFailed             // the TCP exchange raised
    | UnpackFailed(error: Error)   // parse_weight raised struct.error

  /** How one run of `main` ends. */
  datatype Outcome =
    | NoScaleFound     // line 216: nothing is inserted
    | NoResponse       // line 214: nothing is inserted
    | Inserted(row: Row)
    | Escaped(reason: Raised)

  /** The row `check_and_insert_data(parsed_data, connected)` inserts. */
  function RowFor(parsed: Reading, connected: int): (r: Row)
    ensures r.connected == connected
    ensures connected != 0 ==>
      r.weight == parsed.weight && r.division == parsed.division && r.stable == parsed.stable
    ensures connected == 0 ==> r == Row(0, 0, 0, 0)
  {
    if connected != 0 then Row(parsed.weight, parsed.division, parsed.stable, connected)
    else Row(0, 0, 0, connected)
  }

  /** `main`: build and broadcast the discovery frame; if a scale answered,
      send it the weight command and parse a non-empty reply into a row. */
  function RunCycle(discovered: Discovery, exchange: Exchange): Outcome
  {
    match Frame.EncodeRequest(Frame.PollCommand)
    case Err(e) => Escaped(FramingFailed(e))
    case Ok(_) =>
      match discovered
      case DiscoveryError => Escaped(DiscoveryFailed)
      case TimedOut => NoScaleFound
      case Found(_) =>
        match Frame.EncodeRequest(Frame.WeightCommand)
        case Err(e) => Escaped(FramingFailed(e))
        case Ok(_) =>
          match exchange
          case SocketError => Escaped(ConnectionFailed)
          case Received(resp) =>
            if resp == [] then NoResponse
            else
              match ParseWeight(resp)
              case Err(e) => Escaped(UnpackFailed(e))
              case Ok(parsed) => Inserted(RowFor(parsed, 1))
  }

  /** A row is inserted exactly when a scale was found and it replied with
      exactly 14 bytes, and that row always carries `connected = 1` and the
      reply's weight, division and stable flag: the `(0, 0, 0, connected)`
      branch of `check_and_insert_data` is never reached from `main`. */
  lemma InsertedExactlyOnFullReply(discovered: Discovery, exchange: Exchange)
    ensures RunCycle(discovered, exchange).Inserted? <==>
      discovered.Found? && exchange.Received? && |exchange.data| == ResponseSize
    ensures RunCycle(discovered, exchange).Inserted? ==>
      var parsed := ParseWeight(exchange.data).value;
      RunCycle(discovered, exchange).row
        == Row(parsed.weight, parsed.division, parsed.stable, 1)
  {
    Frame.CommandFrames();
  }

  /** The runs that insert nothing, and those that raise out of `main`: the
      frames never fail to build, so what escapes is a socket error of the
      discovery or of the TCP exchange, or a non-empty reply that is not 14
      bytes long. */
  lemma EveryOtherOutcome(discovered: Discovery, exchange: Exchange)
    ensures RunCycle(discovered, exchange) == NoScaleFound <==> discovered.TimedOut?
    ensures RunCycle(discovered, exchange) == Escaped(DiscoveryFailed) <==>
      discovered.DiscoveryError?
    ensures RunCycle(discovered, exchange) == NoResponse <==>
      discovered.Found? && exchange == Received([])
    ensures RunCycle(discovered, exchange) == Escaped(ConnectionFailed) <==>
      discovered.Found? && exchange.SocketError?
    ensures RunCycle(discovered, exchange) == Escaped(UnpackFailed(UnpackSizeMismatch)) <==>
      discovered.Found? && exchange.Received? && exchange.data != []
      && |exchange.data| != ResponseSize
    ensures !(RunCycle(discovered, exchange).Escaped? &&
              RunCycle(discovered, exchange).reason.FramingFailed?)
  {
    Frame.CommandFrames();
  }

  /** A scale at 10.0.0.5:5001 that reports 1234 in division 1, stable, gives
      the row (1234, 1, 1, 1). */
  lemma ReadingIsStored()
    ensures RunCycle(Found(Address("10.0.0.5", 5001)),
                     Received([0x02, 0x00, 0x00, 0x09, 0x00, 0xA0, 0xD2, 0x04, 0x00, 0x00,
                               0x01, 0x01, 0x00, 0x00]))
         == Inserted(Row(1234, 1, 1, 1))
  {
    var resp: seq<byte> := [0x02, 0x00, 0x00, 0x09, 0x00, 0xA0, 0xD2, 0x04, 0x00, 0x00,
                            0x01, 0x01, 0x00, 0x00];
    assert ParseWeight(resp).value.weight == 1234;
    Frame.CommandFrames();
  }
}
