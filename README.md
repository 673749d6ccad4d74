# MASSA-K scale protocol, modelled in Dafny

This project models the device protocol of the MASSA-K glue-scale poller
(`gluescales_lamiflex.py`). The script finds a scale with a UDP broadcast, asks
it for the weight over TCP and stores the reading in MySQL once a minute. The
model covers four parts of it:

- **the frame checksum `crc16`** (`checksum.dfy`). It is a method with the
  source's two nested loops, proved equal to specification functions that
  follow the loops one pass at a time. Python's integers have no width and the
  code never masks `acc`, `temp` or `crc`, so the model works over unbounded
  `nat` with a bitwise exclusive or on naturals (`bits.dfy`). The final
  `struct.pack('>h', crc)` raises once the running value exceeds 0x7FFF; the
  model returns `Err` there. The lemmas say what this unmasked computation
  really is. While the message read as a big-endian number stays below
  0x10000, the running value equals that number. Once the number reaches
  0x10000, the running value stays at or above 0x10000 for good. So `crc16`
  succeeds exactly when the message's big-endian value is at most 0x7FFF, and
  it then returns that value's two bytes. For the two commands the program
  sends (`00` and `A0`) the checksum is `00 00` and `00 A0`.
- **the request frame** (`frame.dfy`). The expression used twice in the
  source (discovery and TCP) is one function here: marker `F8 55 CE`, the
  message length as big-endian `'>H'`, the message, then its checksum. A
  reference parser shows the message can be read back from the frame. The
  parser accepts exactly the frames the encoder builds.
- **`parse_weight`** (`weight.dfy`). It unpacks the fixed 14-byte
  little-endian layout `'<3sHBIbB2s'`. Any other length is an error. The
  unpack is proved inverse to `struct.pack` of the same layout, in both
  directions.
- **one run of `main`** (`cycle.dfy`). Discovery and the TCP exchange are
  abstract inputs. The model covers the row that `check_and_insert_data`
  builds and which run outcomes insert a row, insert nothing, or raise
  out of `main`.

`struct_pack.dfy` holds the `struct` formats used (`'>h'`, `'>H'`, `'<H'`,
`'<I'`, `'<b'`) and the `Result`/`Option` types. Every `struct.error` becomes an
`Err`.

Some things the program does that its names and docstrings do not suggest;
the model follows the code:

- The discovery command is the single byte `00`, not an empty message.
- `crc16` does not truncate its running value to 16 bits, so it is not a
  16-bit CRC. It raises exactly when the message read as a big-endian number
  exceeds 0x7FFF (already for the two bytes `80 00`). Otherwise it returns
  that number's two bytes, so it never checks anything before the message's
  last two bytes.
- The weight field is unpacked with `I`, so it is unsigned, in 0..2^32-1.
- `main` inserts no `(0, 0, 0, 0)` row when no scale is found or no reply
  comes back. It inserts nothing at all. It only ever calls
  `check_and_insert_data` with `connected = 1`.
- `find_scale` catches only `socket.timeout`. A socket error in its set-up or
  `sendto` (lines 66-69, before the `try`), or a `recvfrom` error other than a
  timeout, escapes `main`. So does a socket error in `send_tcp`, or a
  non-empty reply that is not 14 bytes. The model returns `Escaped` for each.

## Model

| member | source | states |
|---|---|---|
| `Checksum.Crc16` | gluescales_lamiflex.py:38-52 | the nested loops compute exactly `Crc16Result(data)`; the result is `Ok` iff the message's big-endian value is at most 0x7FFF, and then it is that value's high and low byte |
| `Checksum.Crc16Result` | gluescales_lamiflex.py:52 | `crc16` returns `Ok` iff the final running value is at most 0x7FFF (it is never negative), and then the two bytes `[v / 256, v % 256]` |
| `Checksum.AccBelow20` | gluescales_lamiflex.py:40-48 | after the eight inner passes `acc` is below 2^20, whatever `temp` holds |
| `Checksum.AccBelow16` | gluescales_lamiflex.py:41-48 | when the running value is below 2^12, bit 15 stays clear for four passes and `acc` ends below 2^16 |
| `Checksum.StepSmall` | gluescales_lamiflex.py:41-50 | a running value below 0x100 becomes `crc * 256 + byte`: the inner loop leaves `acc` at zero |
| `Checksum.StepLarge` | gluescales_lamiflex.py:41-50 | a running value of 0x100 or more becomes 0x10000 or more after the next byte |
| `Checksum.OverflowPersists` | gluescales_lamiflex.py:50 | a running value above 0x7FFF stays above 0x7FFF after the next byte, because `crc << 8` is never masked |
| `Checksum.OverflowPersistsOver` | gluescales_lamiflex.py:39-50 | once the running value exceeds 0x7FFF it exceeds it after any further bytes |
| `Checksum.RunningCrcClosedForm` | gluescales_lamiflex.py:38-50 | the running value equals the message's big-endian value while that is below 0x10000, and is at least 0x10000 otherwise |
| `Checksum.Crc16ClosedForm` | gluescales_lamiflex.py:38-52 | `crc16` succeeds iff the message's big-endian value is at most 0x7FFF, and then returns that value's two bytes |
| `Checksum.Crc16FailsIffSomePrefixOverflows` | gluescales_lamiflex.py:39-52 | the final pack raises iff the running value exceeded 0x7FFF after some prefix, so failing early and failing at the pack agree |
| `Checksum.Crc16Empty` | gluescales_lamiflex.py:38-52 | the checksum of the empty message is `00 00` |
| `Checksum.Crc16SingleByte` | gluescales_lamiflex.py:38-52 | the checksum of a one-byte message `b` is `00 b` |
| `Checksum.Crc16TwoBytesHighBit` | gluescales_lamiflex.py:50-52 | a two-byte message whose first byte is 0x80 or more makes `crc16` raise |
| `StructPack.PackInt16BE` | gluescales_lamiflex.py:52 | `'>h'` succeeds iff the value is in -0x8000..0x7FFF, gives two bytes, and unpacking them gives the value back |
| `StructPack.PackUInt16BE` | gluescales_lamiflex.py:93 | `'>H'` succeeds iff the value is in 0..0xFFFF, gives two bytes, and unpacking them gives the value back |
| `StructPack.PackUnpackUInt16BE` | gluescales_lamiflex.py:93 | every two-byte buffer is the `'>H'` packing of the value it unpacks to |
| `Frame.EncodeRequest` | gluescales_lamiflex.py:92-93 | the frame exists iff the message has at most 65535 bytes and `crc16` succeeds; it has `len + 7` bytes: marker `F8 55 CE`, big-endian length at 3-4, the message at 5..5+len, and the message's checksum last |
| `Frame.RequestRoundTrip` | gluescales_lamiflex.py:93 | parsing a built frame gives back its message |
| `Frame.ParsedRequestIsEncoded` | gluescales_lamiflex.py:93 | every frame the parser accepts is exactly the frame built for the message it carries |
| `Frame.EncodableRequests` | gluescales_lamiflex.py:63 | a message can be framed iff it has at most 65535 bytes and its big-endian value is at most 0x7FFF |
| `Frame.CommandFrames` | gluescales_lamiflex.py:61-63 | the discovery frame is `F8 55 CE 00 01 00 00 00` and the weight-request frame (command `A0`, line 205) is `F8 55 CE 00 01 A0 00 A0` |
| `Weight.ParseWeight` | gluescales_lamiflex.py:117-128 | succeeds iff the reply is exactly 14 bytes; header = bytes 0-2, length = b3 + 256·b4, command = b5, weight = unsigned little-endian 6-9, division = byte 10 as signed, stable = b11, crc = bytes 12-13, none of them checked; packing the fields again gives back the reply |
| `Weight.PackWeight` | gluescales_lamiflex.py:117 | packing with `'<3sHBIbB2s'` succeeds iff length, weight and division fit their formats, and gives 14 bytes |
| `Weight.ParsePacked` | gluescales_lamiflex.py:117-128 | every reading whose fields fit the layout is recovered unchanged by unpacking its bytes |
| `Cycle.RowFor` | gluescales_lamiflex.py:169-177 | with `connected` truthy the row carries the parsed weight, division and stable flag; otherwise it is `(0, 0, 0, 0)` |
| `Cycle.InsertedExactlyOnFullReply` | gluescales_lamiflex.py:200-212 | a row is inserted iff a scale was found and replied with exactly 14 bytes, and it is always the parsed weight, division and stable flag with `connected = 1` |
| `Cycle.EveryOtherOutcome` | gluescales_lamiflex.py:200-216 | a discovery timeout (the `None` of line 75) means nothing is inserted; an empty reply means nothing is inserted; a socket error in discovery (only the timeout is caught, line 74) or in the TCP exchange, or a non-empty reply of the wrong size, escapes `main`; building a frame never fails |
| `Cycle.ReadingIsStored` | gluescales_lamiflex.py:205-212 | a reply reporting 1234 in division 1, stable, gives the row `(1234, 1, 1, 1)` |

## Left out

- The UDP socket of `find_scale` (broadcast option, 5-second timeout, `sendto`, `recvfrom`, `close`; lines 66-77): socket I/O. Its outcome (an address, a timeout, or an uncaught socket error) is the `Discovery` input of `RunCycle`. The model does not tie the address to the reply's contents, which the program also ignores.
- The TCP socket of `send_tcp` (`connect`, `sendall`, the single `recv(1024)`, `close`; lines 96-102): socket I/O. Its outcome is the `Exchange` input of `RunCycle`. The model does not bound the reply to 1024 bytes, and it does not tie the reply to the address found.
- The MySQL part of `check_and_insert_data` (connection, `CREATE TABLE`, `INSERT`, commits, error printing, closing; lines 160-193): calls into a foreign database library. So the model also leaves out whether the `INT` column accepts a weight above 2^31-1, and the error the `finally` block raises when the connection fails before `cursor` is bound.
- The `schedule` loop and `time.sleep` (lines 218-224): process-level scheduling. An exception that escapes `main` is shown as an `Escaped` outcome, and what the scheduler then does is not modelled.
- The configuration globals and credentials (lines 13-22) and every `print`: they decide nothing in the protocol.
