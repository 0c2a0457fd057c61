/** The microcontroller side, `main.cpp`: a byte-at-a-time parser of the
    framed commands arriving on the serial line, the dispatch of complete
    messages to the 433 MHz transmitter and receiver, and the report line
    sent for every code the receiver picks up. The radio library is
    abstracted as the sequence of calls made into it. */
module Firmware {
  import opened Common

  /** A call into the radio library. */
  datatype RadioCall =
    | Transmit(value: nat, bitLength: nat)   // Transmitter.send(value, l)
    | ResetAvailable                          // Receiver.resetAvailable()
    | EnableReceive                           // Receiver.enableReceive(0)
    | DisableReceive                          // Receiver.disableReceive()
    | EnableTransmit(pin: nat)                // Transmitter.enableTransmit(pin)

  const BufferSize: nat := 15
  const SendCommand: Byte := 1
  const ReceiverCommand: Byte := 2
  const ReportMarker: Byte := 82   // 'R'
  const LineFeed: Byte := 10       // '\n'
  const TransmitterPin: nat := 10

  /** The parser's globals `ind`, `len` and `messageBuffer` as a value. */
  datatype Parser = Parser(ind: int, len: int, buffer: seq<Byte>)

  /** The states the parser can reach: at most `len` bytes stored, an empty
      message only when idle, and nothing in the buffer past `ind`. */
  predicate Consistent(p: Parser)
  {
    && |p.buffer| == BufferSize
    && 0 <= p.ind <= p.len <= BufferSize
    && (p.ind == p.len ==> p.ind == 0)
    && forall i :: p.ind <= i < BufferSize ==> p.buffer[i] == 0
  }

  /** The state at power-up and after every complete message. */
  function Idle(): (p: Parser)
    ensures Consistent(p)
  {
    Parser(0, 0, Repeat(0, BufferSize))
  }

  /** What `send` does with a 7-byte message: transmit the big-endian value
      in bytes 1..4 with the big-endian bit length in bytes 5..6, then
      discard whatever the receiver picked up meanwhile; any other length
      does nothing. */
  function SendCalls(buffer: seq<Byte>, length: int): (calls: seq<RadioCall>)
    requires |buffer| == BufferSize
    ensures length == 7 ==>
      calls == [Transmit(BigEndian(buffer[1..5]), BigEndian(buffer[5..7])), ResetAvailable]
    ensures length != 7 ==> calls == []
  {
    if length == 7 then
      var value := (buffer[1] as int) * 0x100_0000 + (buffer[2] as int) * 0x1_0000 + (buffer[3] as int) * 0x100 + buffer[4];
      var l := (buffer[5] as int) * 0x100 + buffer[6];
      assert BigEndian(buffer[1..2]) == buffer[1] by { assert buffer[1..2][..0] == []; }
      assert BigEndian(buffer[1..3]) == (buffer[1] as int) * 0x100 + buffer[2] by { assert buffer[1..3][..1] == buffer[1..2]; }
      assert BigEndian(buffer[1..4]) == (buffer[1] as int) * 0x1_0000 + (buffer[2] as int) * 0x100 + buffer[3] by { assert buffer[1..4][..2] == buffer[1..3]; }
      assert BigEndian(buffer[1..5]) == value by { assert buffer[1..5][..3] == buffer[1..4]; }
      assert BigEndian(buffer[5..6]) == buffer[5] by { assert buffer[5..6][..0] == []; }
      assert BigEndian(buffer[5..7]) == l by { assert buffer[5..7][..1] == buffer[5..6]; }
      [Transmit(value, l), ResetAvailable]
    else []
  }

  /** What `setReceiver` does: switch the receiver on or off. */
  function SetReceiverCalls(to: bool): (calls: seq<RadioCall>)
    ensures to ==> calls == [EnableReceive]
    ensures !to ==> calls == [DisableReceive]
  {
    if to then [EnableReceive] else [DisableReceive]
  }

  /** What `parseMessage` does with a complete message: messages of three
      bytes or more are dispatched on their first byte, command 1 to `send`
      and command 2 to `setReceiver`; everything else is ignored. */
  function ParseMessageCalls(buffer: seq<Byte>, length: int): (calls: seq<RadioCall>)
    requires |buffer| == BufferSize
    ensures length <= 2 ==> calls == []
    ensures calls != [] ==> length > 2 && (buffer[0] == SendCommand || buffer[0] == ReceiverCommand)
    ensures (exists v, l :: Transmit(v, l) in calls) ==> buffer[0] == SendCommand && length == 7
  {
    if length > 2 then
      if buffer[0] == SendCommand then SendCalls(buffer, length)
      else if buffer[0] == ReceiverCommand then SetReceiverCalls(buffer[1] != 0)
      else []
    else []
  }

  /** A message of three bytes or more is acted on by its opcode: command 1
      is `send` on the whole buffer, command 2 switches the receiver on iff
      its second byte is non-zero. */
  lemma ParseMessageDispatch(buffer: seq<Byte>, length: int)
    requires |buffer| == BufferSize && length > 2
    ensures buffer[0] == SendCommand ==> ParseMessageCalls(buffer, length) == SendCalls(buffer, length)
    ensures buffer[0] == ReceiverCommand ==>
      ParseMessageCalls(buffer, length) == SetReceiverCalls(buffer[1] != 0)
    ensures buffer[0] != SendCommand && buffer[0] != ReceiverCommand ==> ParseMessageCalls(buffer, length) == []
  {
  }

  /** One byte read from the serial line: a header byte `0x40..0x4F` seen
      while no message is pending starts a message of `byte & 15` bytes; a
      byte seen while a message is pending is stored, and the message is
      dispatched and the parser reset once it is complete; any other byte is
      dropped. */
  function Step(p: Parser, received: Byte): (r: (Parser, seq<RadioCall>))
    requires Consistent(p)
    ensures Consistent(r.0)
    ensures r.1 != [] ==> r.0 == Idle()
  {
    if p.ind >= p.len && 64 <= received < 80 then
      (Parser(0, received % 16, p.buffer), [])
    else if p.ind < p.len then
      var buffer := p.buffer[p.ind := received];
      var ind := p.ind + 1;
      if ind >= p.len then (Idle(), ParseMessageCalls(buffer, p.len))
      else (Parser(ind, p.len, buffer), [])
    else
      (p, [])
  }

  /** A sequence of bytes read one after the other. */
  function Feed(p: Parser, bytes: seq<Byte>): (r: (Parser, seq<RadioCall>))
    requires Consistent(p)
    ensures Consistent(r.0)
    decreases |bytes|
  {
    if bytes == [] then (p, [])
    else
      var first := Step(p, bytes[0]);
      var rest := Feed(first.0, bytes[1..]);
      (rest.0, first.1 + rest.1)
  }

  /** Reading `a` and then `b` is reading `a + b`. */
  lemma {:induction false} FeedAppend(p: Parser, a: seq<Byte>, b: seq<Byte>)
    requires Consistent(p)
    ensures Feed(p, a + b).0 == Feed(Feed(p, a).0, b).0
    ensures Feed(p, a + b).1 == Feed(p, a).1 + Feed(Feed(p, a).0, b).1
    decreases |a|
  {
    if a != [] {
      assert (a + b)[0] == a[0];
      assert (a + b)[1..] == a[1..] + b;
      var q := Step(p, a[0]);
      FeedAppend(q.0, a[1..], b);
      assert Feed(p, a + b).1 == q.1 + Feed(q.0, a[1..] + b).1;
      assert Feed(p, a).1 == q.1 + Feed(q.0, a[1..]).1;
    } else {
      assert a + b == b;
    }
  }

  /** The line `sendValue` writes: 'R', the four bytes of the value least
      significant first, and a line feed. */
  function ReportLine(value: U32): (line: seq<Byte>)
    ensures |line| == 6 && line[0] == ReportMarker && line[5] == LineFeed
    ensures LittleEndian(line[1..5]) == value
  {
    var line := [ReportMarker] + LittleEndianBytes(value, 4) + [LineFeed];
    assert line[1..5] == LittleEndianBytes(value, 4);
    LittleEndianRoundTrip(value, 4);
    PowValues();
    line
  }

  /** The firmware's globals and the two outputs it drives. */
  class Firmware {
    const messageBuffer: array<Byte>
    var ind: int
    var len: int
    /** Every call made into the radio library, in order. */
    var radio: seq<RadioCall>
    /** Every byte written to the serial line, in order. */
    var serialOut: seq<Byte>

    ghost function State(): Parser
      reads this, messageBuffer
    {
      Parser(ind, len, messageBuffer[..])
    }

    ghost predicate Valid()
      reads this, messageBuffer
    {
      messageBuffer.Length == BufferSize && Consistent(State())
    }

    /** The zero-initialised globals and `setup`, which switches the
        transmitter on at pin 10 and the receiver on. */
    constructor ()
      ensures Valid() && State() == Idle()
      ensures radio == [EnableTransmit(TransmitterPin), EnableReceive] && serialOut == []
    {
      messageBuffer := new Byte[BufferSize](_ => 0);
      ind, len := 0, 0;
      radio := [EnableTransmit(TransmitterPin), EnableReceive];
      serialOut := [];
      new;
      assert messageBuffer[..] == Repeat(0, BufferSize);
    }

    /** The serial branch of `loop`, for one byte read. */
    method OnSerialByte(received: Byte)
      requires Valid()
      modifies this, messageBuffer
      ensures Valid()
      ensures State() == Step(old(State()), received).0
      ensures radio == old(radio) + Step(old(State()), received).1
      ensures serialOut == old(serialOut)
    {
      if ind >= len && 64 <= received < 80 {
        len := received % 16;
        ind := 0;
      } else if ind < len {
        messageBuffer[ind] := received;
        ind := ind + 1;
        if ind >= len {
          ParseMessage(messageBuffer, len);
          len, ind := 0, 0;
          forall i | 0 <= i < messageBuffer.Length {
            messageBuffer[i] := 0;
          }
          assert messageBuffer[..] == Repeat(0, BufferSize);
        }
      }
    }

    /** The receiver branch of `loop`: report the received code on the
        serial line, then let the receiver pick up the next one. */
    method OnRadioReceived(value: U32)
      requires Valid()
      modifies this
      ensures Valid() && State() == old(State())
      ensures serialOut == old(serialOut) + ReportLine(value)
      ensures radio == old(radio) + [ResetAvailable]
    {
      SendValue(value);
      radio := radio + [ResetAvailable];
    }

    /** `sendValue`: split the value into four bytes, least significant
        first, and write them between 'R' and a line feed. */
    method SendValue(toSend: U32)
      modifies this
      ensures serialOut == old(serialOut) + ReportLine(toSend)
      ensures radio == old(radio) && ind == old(ind) && len == old(len)
    {
      var buf := new Byte[4];
      buf[0] := toSend % 256;
      buf[1] := (toSend / 0x100) % 256;
      buf[2] := (toSend / 0x1_0000) % 256;
      buf[3] := (toSend / 0x100_0000) % 256;
      DivMod(toSend, 0x100, 0x100);
      DivMod(toSend, 0x1_0000, 0x100);
      var x1, x2, x3 := toSend / 0x100, toSend / 0x1_0000, toSend / 0x100_0000;
      assert x1 / 0x100 == x2 && x2 / 0x100 == x3;
      assert LittleEndianBytes(x3, 1) == [x3 % 256];
      assert LittleEndianBytes(x2, 2) == [x2 % 256, x3 % 256];
      assert LittleEndianBytes(x1, 3) == [x1 % 256, x2 % 256, x3 % 256];
      assert buf[..] == LittleEndianBytes(toSend, 4);
      serialOut := serialOut + [ReportMarker] + buf[..] + [LineFeed];
    }

    /** `parseMessage` on the buffer and the message length. */
    method ParseMessage(buffer: array<Byte>, length: int)
      requires buffer.Length == BufferSize
      modifies this
      ensures radio == old(radio) + ParseMessageCalls(buffer[..], length)
      ensures serialOut == old(serialOut) && ind == old(ind) && len == old(len)
    {
      if length > 2 {
        if buffer[0] == SendCommand {
          Send(buffer, length);
        } else if buffer[0] == ReceiverCommand {
          SetReceiver(buffer[1] != 0);
        }
      }
    }

    /** `send`: transmit the value and bit length a 7-byte message carries. */
    method Send(buffer: array<Byte>, length: int)
      requires buffer.Length == BufferSize
      modifies this
      ensures radio == old(radio) + SendCalls(buffer[..], length)
      ensures serialOut == old(serialOut) && ind == old(ind) && len == old(len)
    {
      if length == 7 {
        var value := (buffer[1] as int) * 0x100_0000 + (buffer[2] as int) * 0x1_0000 + (buffer[3] as int) * 0x100 + buffer[4];
        var l := (buffer[5] as int) * 0x100 + buffer[6];
        radio := radio + [Transmit(value, l), ResetAvailable];
      }
    }

    /** `setReceiver`: switch the receiver on or off. */
    method SetReceiver(to: bool)
      modifies this
      ensures radio == old(radio) + SetReceiverCalls(to)
      ensures serialOut == old(serialOut) && ind == old(ind) && len == old(len)
    {
      if to {
        radio := radio + [EnableReceive];
      } else {
        radio := radio + [DisableReceive];
      }
    }
  }
}
