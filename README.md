# rc-snitch, modelled in Dafny

rc-snitch sniffs and blocks 433 MHz remote-controlled power sockets. It has
two halves:

- **Host.** A Python command-line tool. Its `Arduino` class frames commands onto a serial line and decodes the report lines coming back. `util.py` converts switch codes between tri-state strings over {0, 1, F}, binary strings and a (value, bit length) pair. The `sniff` and `block` commands run one poll cycle after another.
- **Firmware.** The Arduino sketch `main.cpp`:
  - it parses the framed commands byte by byte;
  - it drives an RCSwitch transmitter and receiver;
  - it writes the report line `'R'`, four little-endian value bytes, `'\n'` for every code it picks up.

The wire protocol in both directions:

- **Host to firmware:** a header byte `0x40 + n`, then `n <= 15` payload bytes. Payload `01 v3 v2 v1 v0 l1 l0` transmits the value `v` with bit length `l`. Payload `02 b` is meant to switch the receiver, but the firmware only acts on messages of three bytes or more, so it never does.
- **Firmware to host:** the 6-byte report line. The host reads the value from bytes 1..3, little-endian.

The Dafny modules follow the source files:

| module | file | models |
|---|---|---|
| `Common` | common.dfy | shared datatypes (`Option`, `Result`, `Outcome`), powers, byte orders, Python's `split`/slicing |
| `Codec` | codec.dfy | `src/main/python/util.py`: validators and the tri-state codec |
| `Link` | link.dfy | `src/main/python/arduino.py`: framing, payload builders, report decoding, the `Arduino` class |
| `Firmware` | firmware.dfy | `src/main/arduino/main.cpp`: the frame parser, `parseMessage`, `send`, `setReceiver`, `sendValue` |
| `Protocol` | protocol.dfy | both ends of the serial link together: round trips between host and firmware |
| `Block` | block.dfy | `src/main/python/commands/block.py`: one reactive iteration, one aggressive pass, the mode choice |
| `Sniff` | sniff.dfy | `src/main/python/commands/sniff.py`: one batch of `__log_lines` |

How the model stands in for the parts it cannot see:

- **Serial port.** It is a trace. `Link.Arduino` keeps every byte written, plus a ghost list of the payloads behind those bytes. The lines read from the port are parameters of `SniffSingle` and `SniffMultiple`.
- **Firmware.** It is a class: the 15-element `messageBuffer` array, `ind`, `len`, the calls made into the radio library (`EnableTransmit`, `Transmit`, `ResetAvailable`, `EnableReceive`, `DisableReceive`) and the bytes written to the serial line.
- **Specification functions.** Pure functions (`Step`/`Feed` for the parser, `TriStateOf` for `to_tri_state`, `DecodeReports` for `sniff_multiple`, and so on) specify the methods. The cross-file lemmas are stated over these functions.
- **Python exceptions become error values.** `OverflowError` from `int.to_bytes`, `ValueError` from `int(code, 2)` and `ArgumentTypeError` from the validators are `Result`/`Outcome` values. The `TypeError` that `tri_state_device` raises on a short code is `None`.

## Model

| member | source | states |
|---|---|---|
| Codec.CheckBinary | src/main/python/util.py:6-21 | accepts a code iff it is a non-empty string of 0/1, or such a string followed by one `'\n'` (Python's `$`); returns it unchanged; otherwise fails with "<code> is not a valid binary code" |
| Codec.CheckTriState | src/main/python/util.py:23-38 | the same over {0, 1, F}, with "<code> is not a valid tri-state code" |
| Codec.CheckTriStatePair | src/main/python/util.py:40-57 | a success is the two halves around the only ':' of the pair; a pair without exactly one ':' fails with "<pair> is not a valid tri state pair" |
| Codec.PairAccepted | src/main/python/util.py:52-57 | two valid tri-state codes joined by ':' are accepted and split back into the same two codes |
| Codec.ToTriState | src/main/python/util.py:59-86 | the loop over the 24-bit binary text, two bits per symbol, computes `TriStateOf(value)` |
| Codec.TriStateSymbolsAt | src/main/python/util.py:68-86 | for a value below 2^24 the code has exactly 12 symbols; symbol i is decided by bits 23-2i and 22-2i (00 gives '0', 11 gives '1', 01 gives 'F', 10 gives 'S') |
| Codec.TriStateOfBelow24Bits | src/main/python/util.py:68-86 | below 2^24, `to_tri_state` is the 12-digit base-4 expansion read through the symbol table |
| Codec.PairSymbolsOfBits | src/main/python/util.py:79-86 | translating the 2k-bit binary text pair by pair gives the k base-4 digits as symbols |
| Codec.TriDigitsAlphabet | src/main/python/util.py:79-86 | every symbol produced is one of 0, 1, F, S |
| Codec.TriStateValue | src/main/python/util.py:88-97 | on iff the code is non-empty and its last symbol is 'F' |
| Codec.OnStateOfReceived | src/main/python/util.py:88-97 | a received 24-bit value reads as "on" iff its lowest two bits are 01 |
| Codec.TriStatePartToNumber | src/main/python/util.py:114-127 | defined iff the part has 4 symbols; the result is in 0..4; it is 0 iff there is no '0', and otherwise the position (from 1) of the first '0' |
| Codec.TriStateDevice | src/main/python/util.py:99-112 | defined iff the code has at least 8 symbols; the text is "G-g D-c" with g the group number of symbols 0..3 and c the letter '@' plus the device number of symbols 4..7 |
| Codec.DeviceExample | src/main/python/util.py:99-112 | "0F1F0F1F0000" is group 1, device A |
| Link.FramesOfAppend | src/main/python/arduino.py:59-72 | the bytes of consecutive frames are the frames of each payload, back to back |
| Link.DecimalPayload | src/main/python/arduino.py:96-107 | succeeds iff 0 <= value < 2^32 and 0 <= length < 2^16, and otherwise fails with OverflowError; a success is 7 bytes, opcode 1, then value and length big-endian |
| Link.TriStateDecimal | src/main/python/arduino.py:118-128 | the folded value of a code is below 4 to the power of the code's length |
| Link.TriStateFits | src/main/python/arduino.py:109-130 | codes of at most 16 symbols never overflow the 32-bit value field |
| Link.BinaryValue | src/main/python/arduino.py:132-141 | `int(code, 2)` is defined iff the code is binary digits, optionally followed by one '\n' |
| Link.DecodeReport | src/main/python/arduino.py:143-155 | a value is decoded iff the line is non-empty and starts with 'R'; the value is below 2^24 |
| Link.DecodeReports | src/main/python/arduino.py:157-166 | at most one value per line, each below 2^24 |
| Link.DecodeReportsCount | src/main/python/arduino.py:157-166 | exactly one value per line that starts with 'R' |
| Link.Arduino.constructor | src/main/python/arduino.py:8-28 | keeps port, baud rate and timeout; not connected; nothing written |
| Link.Arduino.Connect | src/main/python/arduino.py:39-44 | connected afterwards, nothing written |
| Link.Arduino.Disconnect | src/main/python/arduino.py:46-49 | not connected afterwards, nothing written |
| Link.Arduino.IsConnected | src/main/python/arduino.py:51-57 | reports the connection state |
| Link.Arduino.SendMessage | src/main/python/arduino.py:59-72 | always connected afterwards; a payload of at most 15 bytes appends `0x40 + n` and the payload to the written bytes, and a longer one writes nothing |
| Link.Arduino.SetReceiver | src/main/python/arduino.py:74-94 | writes the frame of `[0x02, 1 or 0]` |
| Link.Arduino.SendDecimalValue | src/main/python/arduino.py:96-107 | writes the frame of the decimal payload, or fails with OverflowError having written nothing and left the connection as it was |
| Link.Arduino.SendTriState | src/main/python/arduino.py:109-130 | the folding loop computes `TriStateDecimal(code)`; the frame of that value with bit length twice the code's length is written, or OverflowError |
| Link.Arduino.SendBinary | src/main/python/arduino.py:132-141 | writes the frame of `int(code, 2)` with the code's length as bit length, or fails with ValueError or OverflowError having written nothing |
| Link.Arduino.SniffSingle | src/main/python/arduino.py:143-155 | returns the decoded report of the line read |
| Link.Arduino.SniffMultiple | src/main/python/arduino.py:157-166 | the loop over the lines read returns their decoded reports, in order |
| Firmware.SendCalls | src/main/arduino/main.cpp:130-146 | a 7-byte message transmits the big-endian value of bytes 1..4 with the big-endian bit length of bytes 5..6, then resets the receiver; any other length does nothing |
| Firmware.SetReceiverCalls | src/main/arduino/main.cpp:153-164 | `enableReceive` when asked to switch the receiver on, `disableReceive` otherwise |
| Firmware.ParseMessageCalls | src/main/arduino/main.cpp:100-119 | messages of at most 2 bytes do nothing; anything done comes from opcode 1 or 2; a transmission only comes from opcode 1 with 7 bytes |
| Firmware.ParseMessageDispatch | src/main/arduino/main.cpp:103-117 | a message of 3 bytes or more with opcode 1 does what `send` does, with opcode 2 switches the receiver on iff its second byte is non-zero, and with any other opcode does nothing |
| Firmware.Step | src/main/arduino/main.cpp:41-67 | keeps the parser invariant (0 <= ind <= len <= 15, ind == len only when both are 0, zeros past ind); dispatching a message leaves the parser idle |
| Firmware.Feed | src/main/arduino/main.cpp:41-67 | the parser invariant holds after every sequence of bytes |
| Firmware.FeedAppend | src/main/arduino/main.cpp:41-67 | reading a + b is reading a, then b, from where a left the parser |
| Firmware.ReportLine | src/main/arduino/main.cpp:77-91 | six bytes: 'R', the value little-endian in bytes 1..4, '\n' |
| Firmware.Firmware.constructor | src/main/arduino/main.cpp:8-24 | idle parser, zeroed buffer, transmitter enabled on pin 10 and then the receiver enabled, nothing written |
| Firmware.Firmware.OnSerialByte | src/main/arduino/main.cpp:41-67 | the new parser state and radio calls are those of `Step`; nothing is written to the serial line |
| Firmware.Firmware.OnRadioReceived | src/main/arduino/main.cpp:33-39 | writes the report line of the value, then resets the receiver; the parser is unchanged |
| Firmware.Firmware.SendValue | src/main/arduino/main.cpp:77-91 | writes the report line of the value |
| Firmware.Firmware.ParseMessage | src/main/arduino/main.cpp:100-119 | makes the calls of `ParseMessageCalls` on the buffer |
| Firmware.Firmware.Send | src/main/arduino/main.cpp:130-146 | makes the calls of `SendCalls` on the buffer |
| Firmware.Firmware.SetReceiver | src/main/arduino/main.cpp:153-164 | makes the call of `SetReceiverCalls` |
| Protocol.FrameDispatch | src/main/arduino/main.cpp:46-64 | a frame read by the idle firmware dispatches its payload once, with its length, and leaves the parser idle |
| Protocol.StreamDispatch | src/main/python/arduino.py:67-72 | frames written back to back are dispatched one after the other |
| Protocol.HostStreamDispatched | src/main/python/arduino.py:59-72 | everything an `Arduino` has written, read by a freshly reset firmware, is dispatched payload by payload |
| Protocol.DecimalTransmits | src/main/arduino/main.cpp:132-142 | the frame of `send_decimal_value(v, l)` makes the firmware transmit v with bit length l, then reset the receiver |
| Protocol.TriStateTransmits | src/main/python/arduino.py:118-130 | the frame of `send_tri_state(code)`, for at most 16 symbols, transmits the folded value with bit length twice the code's length |
| Protocol.BinaryTransmits | src/main/python/arduino.py:132-141 | the frame of `send_binary(code)` transmits `int(code, 2)` with the code's length as bit length |
| Protocol.ReceiverCommandIgnored | src/main/arduino/main.cpp:103-117 | the 2-byte `set_receiver` payload is never acted on: the firmware makes no call and stays idle |
| Protocol.NoiseIgnored | src/main/arduino/main.cpp:46-49 | bytes outside 0x40..0x4F read by the idle firmware are dropped |
| Protocol.ReportRoundTrip | src/main/python/arduino.py:150-155 | the report line of a value decodes on the host to the value mod 2^24 |
| Protocol.DecodeReportsAppend | src/main/python/arduino.py:160-166 | decoding is line by line |
| Protocol.ReadLines | src/main/python/arduino.py:160-166 | the pieces read give back the byte stream; every piece but the last ends in its only line feed |
| Protocol.ReportSplitByLineFeed | src/main/python/arduino.py:160-166 | the report of 266 is `52 0A 01 00 00 0A`; read line by line, it decodes to [10], not to [266] |
| Protocol.ReadReports | src/main/arduino/main.cpp:77-91 | reading the stream six bytes at a time gives back the stream |
| Protocol.ReportsRoundTrip | src/main/arduino/main.cpp:77-91 | read report by report, every received value reaches the host, in order, as its low 24 bits |
| Protocol.CheckedBinaryParses | src/main/python/util.py:18-21 | a code passes `check_binary` iff the modelled `int(code, 2)` (Link.BinaryValue) accepts it |
| Protocol.BinaryBitsRoundTrip | src/main/python/arduino.py:141 | writing `int(digits, 2)` back with as many binary digits gives the digits: the conversion loses nothing |
| Protocol.BinaryToTriState | src/main/python/util.py:68-86 | a binary code of at most 24 digits, sent and read back, prints as the tri-state reading of the code padded with '0's to 24 digits |
| Protocol.TriDigitsOfDecimal | src/main/python/arduino.py:118-128 | reading the folded value of a {0, 1, F} code back symbol by symbol gives the code |
| Protocol.SentTriStateReadsBack | src/main/python/util.py:68-86 | for a {0, 1, F} code of at most 12 symbols, `to_tri_state` of its folded value is the code with leading '0's up to 12 symbols |
| Protocol.DecimalOfTriDigits | src/main/python/arduino.py:122-128 | folding the symbols read from a value gives at most its low 2k bits, and exactly those iff no 'S' was read |
| Protocol.ReceivedCodeResent | src/main/python/util.py:68-86 | re-sending a received 24-bit code sends the same value iff its tri-state form holds no 'S' |
| Block.ReactiveTable | src/main/python/commands/block.py:49 | the table's keys are the triggers; each trigger maps to the response of its last pair |
| Block.ReactiveResponse | src/main/python/commands/block.py:54-57 | there is a response iff a value was read and its tri-state code is a trigger, and it is that trigger's response |
| Block.ShortTriggerNeverFires | src/main/python/commands/block.py:55-57 | a trigger of other than 12 symbols never matches a received code |
| Block.SendBurst | src/main/python/commands/block.py:61-63 | the response is sent 5 times in sequence; an overflow stops it with nothing written |
| Block.ReactiveIteration | src/main/python/commands/block.py:51-63 | with no value, or no matching trigger, nothing is written; otherwise the response's frame is written 5 times |
| Block.BurstTransmits | src/main/python/commands/block.py:61-63 | the firmware answers n frames of a response with n transmissions, each followed by a receiver reset |
| Block.PassPayloads | src/main/python/commands/block.py:38-40 | the payloads of one pass are those of the codes in list order; a failed pass stops at the code whose payload fails, with that code's error; the pass completes iff it sent every code |
| Block.PassSendsEveryCode | src/main/python/commands/block.py:38-40 | a pass over codes of at most 16 symbols completes |
| Block.AggressivePass | src/main/python/commands/block.py:37-40 | one pass writes exactly the frames of `PassPayloads`, in order, and ends as it says |
| Block.ChooseMode | src/main/python/commands/block.py:79-89 | aggressive if given, else reactive if given, else neither (no connection) |
| Sniff.Dedupe | src/main/python/commands/sniff.py:42 | the values of the batch, each once, in order of first occurrence |
| Sniff.Keep | src/main/python/commands/sniff.py:45 | exactly the values that pass the allow-list, without repeats when the input has none |
| Sniff.KeepAppend | src/main/python/commands/sniff.py:42-46 | filtering a concatenation filters each part and keeps them in order, so kept values stay in input order |
| Sniff.KeepSingle | src/main/python/commands/sniff.py:45 | a single value is kept iff it passes the allow-list |
| Sniff.ReportedOnce | src/main/python/commands/sniff.py:42-46 | a value is reported iff it was read in the batch and passes the allow-list, and it is reported once |
| Sniff.DecimalRoundTrip | src/main/python/commands/sniff.py:60 | the decimal column reads back as the value |
| Sniff.RowColumns | src/main/python/commands/sniff.py:59-60 | a row splits on ';' into timestamp, decimal value, tri-state code and "True"/"False" plus the line separator |
| Sniff.StateColumn | src/main/python/commands/sniff.py:59 | the state column is "True" iff the value's lowest two bits are 01 |
| Sniff.PrintBatch | src/main/python/commands/sniff.py:41-46 | without an out file, prints exactly the kept values of the batch, in order |
| Sniff.AppendBatch | src/main/python/commands/sniff.py:54-61 | appends one row per printed value, all with the batch's timestamp, so printed and logged events agree |
| Sniff.LogBatch | src/main/python/commands/sniff.py:36-61 | prints the reported values of this batch alone; appends nothing without an out file; writes the header only when the file is new |

## Left out

- The serial transport, `time.sleep`, the 2-second settle in `connection_handler`, and the firmware reset that reopening the port causes: I/O and timing. `connection_handler` (src/main/python/arduino.py:168-193) is not modelled; it has no try/finally, so a disconnect after an exception is not guaranteed.
- The signal handlers and the `while not self.interrupted` loops of `sniff` and `block`: asynchronous plumbing. One iteration, batch or pass is modelled; the flag is read only between them, so a pass that has started always completes.
- RCSwitch and Arduino `Serial` are foreign libraries. They appear as the `RadioCall` trace and the serial-output trace, and incoming bytes and received codes are parameters.
- The `tint_*` colouring and `format_received` display text: cosmetic.
- `main.py` (argument parsing), `commands/send.py` (a thin dispatch to the `Arduino` methods), `commands/profile.py` (grouping and sorting over `datetime`s) and `build.py`: not part of this model.
- `datetime.now()` is the parameter `now`, already formatted; `path.exists` is the parameter `fileExists`; `os.linesep` is taken as "\n".
- Codec.ToTriState: values are natural numbers. A negative value, which `format(v, '024b')` writes with a '-', is not modelled.
- Link.BinaryValue: models `int(code, 2)` for digit strings with an optional trailing '\n'. The other forms Python accepts (surrounding whitespace, '_' separators, a `0b` prefix, a sign) are not modelled, so those codes are treated as ValueError.
- Link.Arduino.Disconnect, Link.Arduino.SniffSingle, Link.Arduino.SniffMultiple: require a connection, because the code calls `close`/`readline`/`readlines` on `None` otherwise and crashes. `disconnect` calls `close` on `None` when unconnected, so it is not idempotent.
- Link.Arduino.Connect: reopening an already open port is modelled as staying connected.
- `enable_receiver`/`disable_receiver` are `Link.Arduino.SetReceiver(true/false)`.
- Codec.TriStateDevice: a code shorter than 8 symbols makes Python raise `TypeError`; the model returns `None`.
- Firmware.Step: requires `Consistent`, the invariant every reachable parser state satisfies (the constructor establishes it and `Step` keeps it).
- Firmware.Firmware: `messageBuffer` holds `unsigned int` in the source but only ever bytes read from the serial line, so it is an array of bytes.

## Findings

| source | as written | input that shows it | evidently intended | confidence | as-written member | corrected member |
|---|---|---|---|---|---|---|
| src/main/python/arduino.py:160-166 with src/main/arduino/main.cpp:77-91 | the host splits the report stream with `readlines()` at every 0x0A byte, including a value byte equal to 0x0A | received value 266: report `52 0A 01 00 00 0A` is read as the lines `52 0A` and `01 00 00 0A`, and decodes to [10] | every received value reaches the host with its low 24 bits intact | not executed | Protocol.ReportSplitByLineFeed | Protocol.ReportsRoundTrip |
