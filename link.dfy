/** The host side of the serial link, `arduino.py`: the `Arduino` object
    that frames commands for the microcontroller and decodes the report lines
    it sends back. The serial port itself is abstracted: what is written is
    recorded in `written`, and the lines read are given to the sniff methods
    as arguments. */
module Link {
  import opened Common

  /** What a send can raise before anything is written: `int.to_bytes`
      raises OverflowError for a value that does not fit, `int(code, 2)`
      raises ValueError for a code that is not binary. */
  datatype SendError = OverflowError | ValueError

  const HeaderBase: Byte := 0x40
  const MaxPayload: nat := 15
  /** `ord('R')`, the first byte of a report line. */
  const ReportMarker: Byte := 82
  const SendOpcode: Byte := 0x01
  const ReceiverOpcode: Byte := 0x02

  /** The bytes `send_message` writes for a payload that fits: a header
      `0x40 + len` followed by the payload. */
  function Frame(message: seq<Byte>): seq<Byte>
    requires |message| <= MaxPayload
  {
    [HeaderBase + |message|] + message
  }

  predicate AllFit(payloads: seq<seq<Byte>>)
  {
    forall i :: 0 <= i < |payloads| ==> |payloads[i]| <= MaxPayload
  }

  /** The byte stream of a sequence of framed payloads. */
  function FramesOf(payloads: seq<seq<Byte>>): seq<Byte>
    requires AllFit(payloads)
  {
    if payloads == [] then []
    else FramesOf(payloads[..|payloads| - 1]) + Frame(payloads[|payloads| - 1])
  }

  /** One more payload adds its frame at the end. */
  lemma FramesOfSnoc(payloads: seq<seq<Byte>>, m: seq<Byte>)
    requires AllFit(payloads) && |m| <= MaxPayload
    ensures AllFit(payloads + [m])
    ensures FramesOf(payloads + [m]) == FramesOf(payloads) + Frame(m)
  {
    assert (payloads + [m])[..|payloads|] == payloads;
  }

  /** Framing is payload by payload. */
  lemma {:induction false} FramesOfAppend(a: seq<seq<Byte>>, b: seq<seq<Byte>>)
    requires AllFit(a) && AllFit(b)
    ensures AllFit(a + b) && FramesOf(a + b) == FramesOf(a) + FramesOf(b)
  {
    assert AllFit(a + b) by {
      forall i | 0 <= i < |a + b| ensures |(a + b)[i]| <= MaxPayload {
        if i >= |a| {
          assert (a + b)[i] == b[i - |a|];
        }
      }
    }
    if b == [] {
      assert a + b == a;
    } else {
      var init := b[..|b| - 1];
      assert (a + b)[..|a + b| - 1] == a + init;
      assert AllFit(init);
      FramesOfAppend(a, init);
    }
  }

  /** The payload of `set_receiver(to)`: `b'\x02' + int(to).to_bytes(1, 'big')`. */
  function ReceiverPayload(to: bool): seq<Byte>
  {
    [ReceiverOpcode, if to then 1 else 0]
  }

  /** The payload of `send_decimal_value(value, length)`:
      `b'\x01' + value.to_bytes(4, 'big') + length.to_bytes(2, 'big')`,
      which raises OverflowError unless both fit. */
  function DecimalPayload(value: int, length: int): (r: Result<seq<Byte>, SendError>)
    ensures r.Success? <==> 0 <= value < 0x1_0000_0000 && 0 <= length < 0x1_0000
    ensures r.Failure? ==> r.error == OverflowError
    ensures r.Success? ==>
      && |r.value| == 7 && r.value[0] == SendOpcode
      && BigEndian(r.value[1..5]) == value && BigEndian(r.value[5..]) == length
  {
    if 0 <= value < 0x1_0000_0000 && 0 <= length < 0x1_0000 then
      var p := [SendOpcode] + BigEndianBytes(value, 4) + BigEndianBytes(length, 2);
      PowValues();
      BigEndianRoundTrip(value, 4);
      BigEndianRoundTrip(length, 2);
      assert p[1..5] == BigEndianBytes(value, 4) && p[5..] == BigEndianBytes(length, 2);
      Success(p)
    else
      Failure(OverflowError)
  }

  /** The two bits `send_tri_state` emits for one symbol: 'F' is 01, '1' is
      11, '0' and every other character 00. */
  function SymbolBits(c: char): nat
  {
    if c == 'F' then 1 else if c == '1' then 3 else 0
  }

  /** The value `send_tri_state` computes, folding the symbols most
      significant first. It fits in two bits per symbol. */
  function TriStateDecimal(code: string): (v: nat)
    ensures v < Pow(4, |code|)
  {
    if code == [] then 0
    else TriStateDecimal(code[..|code| - 1]) * 4 + SymbolBits(code[|code| - 1])
  }

  /** The payload `send_tri_state(code)` hands to `send_decimal_value`:
      the folded value and a length of two bits per symbol. */
  function TriStatePayload(code: string): Result<seq<Byte>, SendError>
  {
    DecimalPayload(TriStateDecimal(code), 2 * |code|)
  }

  /** A code of at most 16 symbols always fits the 4-byte value field. */
  lemma TriStateFits(code: string)
    requires |code| <= 16
    ensures TriStatePayload(code).Success?
  {
    PowMonotone(4, |code|, 16);
    PowValues();
  }

  /** The value of a string of binary digits, most significant first. */
  function BinaryDigitsValue(digits: string): (v: nat)
    ensures v < Pow(2, |digits|)
  {
    if digits == [] then 0
    else BinaryDigitsValue(digits[..|digits| - 1]) * 2 + (if digits[|digits| - 1] == '1' then 1 else 0)
  }

  predicate IsBinaryDigits(s: string)
  {
    |s| > 0 && forall i :: 0 <= i < |s| ==> s[i] == '0' || s[i] == '1'
  }

  /** `int(code, 2)` on the codes the operator can enter: binary digits,
      possibly followed by the newline that `int` strips; `None` stands for
      the ValueError raised for anything else. */
  function BinaryValue(code: string): (r: Option<nat>)
    ensures r.Some? <==>
      IsBinaryDigits(code) || (|code| > 1 && code[|code| - 1] == '\n' && IsBinaryDigits(code[..|code| - 1]))
  {
    var digits := if |code| > 0 && code[|code| - 1] == '\n' then code[..|code| - 1] else code;
    if IsBinaryDigits(digits) then Some(BinaryDigitsValue(digits)) else None
  }

  /** The payload `send_binary(code)` hands to `send_decimal_value`, or the
      error it raises first. */
  function BinaryPayload(code: string): Result<seq<Byte>, SendError>
  {
    match BinaryValue(code)
    case None => Failure(ValueError)
    case Some(v) => DecimalPayload(v, |code|)
  }

  /** What `sniff_single` makes of one line: the little-endian value of
      bytes 1..3 when the line starts with 'R', otherwise nothing. */
  function DecodeReport(line: seq<Byte>): (r: Option<nat>)
    ensures r.Some? <==> |line| > 0 && line[0] == ReportMarker
    ensures r.Some? ==> r.value < 0x100_0000
  {
    if |line| > 0 && line[0] == ReportMarker then
      PowValues();
      PowMonotone(256, |PySlice(line, 1, 4)|, 3);
      Some(LittleEndian(PySlice(line, 1, 4)))
    else None
  }

  /** What `sniff_multiple` makes of the lines read: the decoded values of
      the report lines, in order, all below 2^24. */
  function DecodeReports(lines: seq<seq<Byte>>): (values: seq<nat>)
    ensures |values| <= |lines|
    ensures forall i :: 0 <= i < |values| ==> values[i] < 0x100_0000
  {
    if lines == [] then []
    else
      var rest := DecodeReports(lines[..|lines| - 1]);
      match DecodeReport(lines[|lines| - 1])
      case None => rest
      case Some(v) => rest + [v]
  }

  /** Whether a line starts with 'R'. */
  predicate IsReport(line: seq<Byte>)
  {
    |line| > 0 && line[0] == ReportMarker
  }

  /** The positions of the lines starting with 'R' among the first `n` lines. */
  function ReportIndices(lines: seq<seq<Byte>>, n: nat): set<nat>
    requires n <= |lines|
  {
    set i: nat | i < n && IsReport(lines[i])
  }

  /** One value is reported per line that starts with 'R'. */
  lemma {:induction false} DecodeReportsCount(lines: seq<seq<Byte>>)
    ensures |DecodeReports(lines)| == |ReportIndices(lines, |lines|)|
  {
    if lines != [] {
      var n := |lines| - 1;
      var init := lines[..n];
      DecodeReportsCount(init);
      ReportIndicesPrefix(lines, n);
      ReportIndicesStep(lines, n);
    }
  }

  /** The report positions among the first `n` lines depend on those lines only. */
  lemma ReportIndicesPrefix(lines: seq<seq<Byte>>, n: nat)
    requires n <= |lines|
    ensures ReportIndices(lines[..n], n) == ReportIndices(lines, n)
  {
    forall i: nat | i < n ensures lines[..n][i] == lines[i] { }
  }

  /** One more line adds its position when it starts with 'R'. */
  lemma ReportIndicesStep(lines: seq<seq<Byte>>, n: nat)
    requires n < |lines|
    ensures IsReport(lines[n]) ==> |ReportIndices(lines, n + 1)| == |ReportIndices(lines, n)| + 1
    ensures !IsReport(lines[n]) ==> ReportIndices(lines, n + 1) == ReportIndices(lines, n)
  {
    var before, after := ReportIndices(lines, n), ReportIndices(lines, n + 1);
    if IsReport(lines[n]) {
      assert after == before + {n};
      assert n !in before;
    }
  }

  /** The `Arduino` object: whether a serial connection is held, and every
      byte written to the port. */
  class Arduino {
    const port: string
    const baudRate: int
    const timeout: int
    /** `self.arduino is not None` */
    var connected: bool
    /** Every byte written to the port, in order. */
    var written: seq<Byte>
    /** The payloads whose frames make up `written`. */
    ghost var payloads: seq<seq<Byte>>

    /** What is written is always a concatenation of whole frames. */
    ghost predicate Valid()
      reads this
    {
      AllFit(payloads) && written == FramesOf(payloads)
    }

    constructor (port: string, baudRate: int, timeout: int)
      ensures Valid()
      ensures this.port == port && this.baudRate == baudRate && this.timeout == timeout
      ensures !connected && written == [] && payloads == []
    {
      this.port := port;
      this.baudRate := baudRate;
      this.timeout := timeout;
      connected := false;
      written := [];
      payloads := [];
    }

    /** `connect`: opens the port (a port already open is replaced). */
    method Connect()
      modifies this
      ensures connected
      ensures written == old(written) && payloads == old(payloads)
    {
      connected := true;
    }

    /** `disconnect`: closes the port; `self.arduino.close()` raises when no
      port is open, so a connection is required. */
    method Disconnect()
      requires connected
      modifies this
      ensures !connected
      ensures written == old(written) && payloads == old(payloads)
    {
      connected := false;
    }

    method IsConnected() returns (isConnected: bool)
      ensures isConnected == connected
    {
      isConnected := connected;
    }

    /** `send_message`: connect if needed, then write the frame of a payload
      of at most 15 bytes; a longer payload is dropped without a word. */
    method SendMessage(message: seq<Byte>)
      requires Valid()
      modifies this
      ensures Valid() && connected
      ensures |message| <= MaxPayload ==>
        payloads == old(payloads) + [message] && written == old(written) + Frame(message)
      ensures |message| > MaxPayload ==>
        payloads == old(payloads) && written == old(written)
    {
      var isConnected := IsConnected();
      if !isConnected {
        Connect();
      }
      if |message| <= MaxPayload {
        FramesOfSnoc(payloads, message);
        written := written + Frame(message);
        payloads := payloads + [message];
      }
    }

    /** The effect of one of the send methods that builds `payload` and
      hands it to `send_message`, or raises before writing anything. */
    twostate predicate Sent(payload: Result<seq<Byte>, SendError>, new outcome: Outcome<SendError>)
      reads this
    {
      match payload
      case Success(p) =>
        && outcome == Pass && connected && |p| <= MaxPayload
        && payloads == old(payloads) + [p] && written == old(written) + Frame(p)
      case Failure(e) =>
        && outcome == Fail(e) && connected == old(connected)
        && payloads == old(payloads) && written == old(written)
    }

    /** `set_receiver`: frame `0x42, 0x02, 0|1`. */
    method SetReceiver(to: bool)
      requires Valid()
      modifies this
      ensures Valid() && Sent(Success(ReceiverPayload(to)), Pass)
    {
      SendMessage(ReceiverPayload(to));
    }

    /** `send_decimal_value`: frame `0x47, 0x01`, the value in 4 bytes and
      the length in 2 bytes, both big-endian; OverflowError, with nothing
      written and no connection made, when either does not fit. */
    method SendDecimalValue(value: int, length: int) returns (outcome: Outcome<SendError>)
      requires Valid()
      modifies this
      ensures Valid() && Sent(DecimalPayload(value, length), outcome)
    {
      if !(0 <= value < 0x1_0000_0000) || !(0 <= length < 0x1_0000) {
        return Fail(OverflowError);
      }
      var payload := [SendOpcode] + BigEndianBytes(value, 4) + BigEndianBytes(length, 2);
      SendMessage(payload);
      outcome := Pass;
    }

    /** `send_tri_state`: fold the symbols into a value two bits at a time
      (`value <<= 2`, then +1 for 'F', +3 for '1') and send it with a length
      of two bits per symbol. */
    method SendTriState(code: string) returns (outcome: Outcome<SendError>)
      requires Valid()
      modifies this
      ensures Valid() && Sent(TriStatePayload(code), outcome)
    {
      var value := 0;
      for i := 0 to |code|
        invariant value == TriStateDecimal(code[..i])
      {
        assert code[..i + 1][..i] == code[..i];
        value := value * 4;
        if code[i] == 'F' {
          value := value + 1;
        } else if code[i] == '1' {
          value := value + 3;
        }
      }
      assert code[..|code|] == code;
      outcome := SendDecimalValue(value, |code| * 2);
    }

    /** `send_binary`: send `int(code, 2)` with the code's length as the
      signal length. */
    method SendBinary(code: string) returns (outcome: Outcome<SendError>)
      requires Valid()
      modifies this
      ensures Valid() && Sent(BinaryPayload(code), outcome)
    {
      var value := BinaryValue(code);
      if value.None? {
        return Fail(ValueError);
      }
      outcome := SendDecimalValue(value.value, |code|);
    }

    /** `sniff_single` on the line `readline()` returned: the value of a
      report line, `None` for anything else (an empty line after a timeout
      included). */
    method SniffSingle(line: seq<Byte>) returns (received: Option<nat>)
      requires connected
      ensures received == DecodeReport(line)
    {
      if |line| > 0 && line[0] == ReportMarker {
        received := Some(LittleEndian(PySlice(line, 1, 4)));
      } else {
        received := None;
      }
    }

    /** `sniff_multiple` on the lines `readlines()` returned: the values of
      the report lines, in the order read. */
    method SniffMultiple(lines: seq<seq<Byte>>) returns (values: seq<nat>)
      requires connected
      ensures values == DecodeReports(lines)
    {
      values := [];
      for i := 0 to |lines|
        invariant values == DecodeReports(lines[..i])
      {
        assert lines[..i + 1][..i] == lines[..i];
        var l := lines[i];
        if |l| > 0 && l[0] == ReportMarker {
          values := values + [LittleEndian(PySlice(l, 1, 4))];
        }
      }
      assert lines[..|lines|] == lines;
    }
  }
}
