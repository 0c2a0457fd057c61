/** The two ends of the serial link together: what the firmware does with
    the frames the host writes, what the host makes of the report lines the
    firmware writes, and how the tri-state codes the host sends relate to
    the ones it prints for received values. */
module Protocol {
  import opened Common
  import opened Codec
  import Link
  import Firmware

  /** The buffer `parseMessage` sees for a payload: the payload followed by
      the zeros the buffer was cleared to. */
  function Padded(m: seq<Byte>): (b: seq<Byte>)
    requires |m| <= Firmware.BufferSize
    ensures |b| == Firmware.BufferSize && b[..|m|] == m
  {
    m + Repeat(0, Firmware.BufferSize - |m|)
  }

  /** The parser after the header and the first `i` bytes of payload `m`. */
  function Partial(m: seq<Byte>, i: nat): (p: Firmware.Parser)
    requires i < |m| <= Firmware.BufferSize
    ensures Firmware.Consistent(p)
  {
    Firmware.Parser(i, |m|, m[..i] + Repeat(0, Firmware.BufferSize - i))
  }

  /** Storing the next payload byte: the parser moves on, or dispatches the
      message once it is complete. */
  lemma StepStores(m: seq<Byte>, i: nat)
    requires i < |m| <= Firmware.BufferSize
    ensures Firmware.Step(Partial(m, i), m[i])
         == if i + 1 == |m| then (Firmware.Idle(), Firmware.ParseMessageCalls(Padded(m), |m|))
            else (Partial(m, i + 1), [])
  {
    var p := Partial(m, i);
    var stored := p.buffer[i := m[i]];
    var zeros := Repeat(0, Firmware.BufferSize - (i + 1));
    assert stored == m[..i + 1] + zeros by {
      forall k | 0 <= k < Firmware.BufferSize
        ensures stored[k] == (m[..i + 1] + zeros)[k]
      {
        if k > i {
          assert stored[k] == 0;
        }
      }
    }
    if i + 1 == |m| {
      assert m[..i + 1] == m;
    }
  }

  lemma {:induction false} FeedRestOfPayload(m: seq<Byte>, i: nat)
    requires i < |m| <= Firmware.BufferSize
    ensures Firmware.Feed(Partial(m, i), m[i..])
         == (Firmware.Idle(), Firmware.ParseMessageCalls(Padded(m), |m|))
    decreases |m| - i
  {
    var p := Partial(m, i);
    StepStores(m, i);
    var first := Firmware.Step(p, m[i]);
    assert m[i..][0] == m[i] && m[i..][1..] == m[i + 1..];
    var r := Firmware.Feed(first.0, m[i + 1..]);
    assert Firmware.Feed(p, m[i..]) == (r.0, first.1 + r.1);
    if i + 1 == |m| {
      assert m[i + 1..] == [];
      assert first.1 + [] == first.1;
    } else {
      FeedRestOfPayload(m, i + 1);
      assert [] + r.1 == r.1;
    }
  }

  /** A frame read by the idle firmware is dispatched once, as a message of
      the payload's length, and leaves the parser idle again. */
  lemma FrameDispatch(m: seq<Byte>)
    requires |m| <= Link.MaxPayload
    ensures Firmware.Feed(Firmware.Idle(), Link.Frame(m))
         == (Firmware.Idle(), Firmware.ParseMessageCalls(Padded(m), |m|))
  {
    var f := Link.Frame(m);
    var afterHeader := Firmware.Step(Firmware.Idle(), f[0]);
    assert afterHeader == (Firmware.Parser(0, |m|, Repeat(0, Firmware.BufferSize)), []);
    assert f[1..] == m;
    var rest := Firmware.Feed(afterHeader.0, m);
    assert Firmware.Feed(Firmware.Idle(), f) == (rest.0, [] + rest.1);
    assert [] + rest.1 == rest.1;
    if |m| > 0 {
      FeedRestOfPayload(m, 0);
      assert Partial(m, 0) == afterHeader.0;
      assert m[0..] == m;
    }
  }

  /** The calls the firmware makes for a sequence of payloads. */
  function Dispatched(payloads: seq<seq<Byte>>): seq<Firmware.RadioCall>
    requires Link.AllFit(payloads)
  {
    if payloads == [] then []
    else
      var last := payloads[|payloads| - 1];
      Dispatched(payloads[..|payloads| - 1]) + Firmware.ParseMessageCalls(Padded(last), |last|)
  }

  /** Frames written back to back are dispatched one after the other, and
      the firmware is idle between them. */
  lemma {:induction false} StreamDispatch(payloads: seq<seq<Byte>>)
    requires Link.AllFit(payloads)
    ensures Firmware.Feed(Firmware.Idle(), Link.FramesOf(payloads))
         == (Firmware.Idle(), Dispatched(payloads))
  {
    if payloads != [] {
      var init, last := payloads[..|payloads| - 1], payloads[|payloads| - 1];
      assert Link.AllFit(init);
      StreamDispatch(init);
      Firmware.FeedAppend(Firmware.Idle(), Link.FramesOf(init), Link.Frame(last));
      FrameDispatch(last);
    }
  }

  /** Everything an `Arduino` object has written, read by a freshly reset
      firmware, is dispatched payload by payload. */
  lemma HostStreamDispatched(a: Link.Arduino)
    requires a.Valid()
    ensures Firmware.Feed(Firmware.Idle(), a.written) == (Firmware.Idle(), Dispatched(a.payloads))
  {
    StreamDispatch(a.payloads);
  }

  /** `send_decimal_value(value, length)` makes the firmware transmit
      exactly that value with that bit length. */
  lemma DecimalTransmits(value: int, length: int)
    requires Link.DecimalPayload(value, length).Success?
    ensures Firmware.Feed(Firmware.Idle(), Link.Frame(Link.DecimalPayload(value, length).value))
         == (Firmware.Idle(), [Firmware.Transmit(value, length), Firmware.ResetAvailable])
  {
    var p := Link.DecimalPayload(value, length).value;
    FrameDispatch(p);
    var b := Padded(p);
    assert b[1..5] == p[1..5] && b[5..7] == p[5..];
  }

  /** `send_tri_state(code)` for a code of at most 16 symbols makes the
      firmware transmit the folded value with two bits per symbol. */
  lemma TriStateTransmits(code: string)
    requires |code| <= 16
    ensures Link.TriStatePayload(code).Success?
    ensures Firmware.Feed(Firmware.Idle(), Link.Frame(Link.TriStatePayload(code).value))
         == (Firmware.Idle(),
             [Firmware.Transmit(Link.TriStateDecimal(code), 2 * |code|), Firmware.ResetAvailable])
  {
    Link.TriStateFits(code);
    DecimalTransmits(Link.TriStateDecimal(code), 2 * |code|);
  }

  /** `send_binary(code)` makes the firmware transmit the binary value with
      the code's length as bit length. */
  lemma BinaryTransmits(code: string)
    requires Link.BinaryPayload(code).Success?
    ensures Firmware.Feed(Firmware.Idle(), Link.Frame(Link.BinaryPayload(code).value))
         == (Firmware.Idle(),
             [Firmware.Transmit(Link.BinaryValue(code).value, |code|), Firmware.ResetAvailable])
  {
    DecimalTransmits(Link.BinaryValue(code).value, |code|);
  }

  /** The frame of `set_receiver` is two bytes long, and the firmware only
      dispatches messages longer than two bytes: the receiver is never
      switched by the host. */
  lemma ReceiverCommandIgnored(to: bool)
    ensures Firmware.Feed(Firmware.Idle(), Link.Frame(Link.ReceiverPayload(to)))
         == (Firmware.Idle(), [])
  {
    FrameDispatch(Link.ReceiverPayload(to));
  }

  /** Bytes that are not headers are dropped by the idle firmware. */
  lemma {:induction false} NoiseIgnored(bytes: seq<Byte>)
    requires forall i :: 0 <= i < |bytes| ==> !(0x40 <= bytes[i] < 0x50)
    ensures Firmware.Feed(Firmware.Idle(), bytes) == (Firmware.Idle(), [])
  {
    if bytes != [] {
      assert Firmware.Step(Firmware.Idle(), bytes[0]) == (Firmware.Idle(), []);
      NoiseIgnored(bytes[1..]);
      var r := Firmware.Feed(Firmware.Idle(), bytes[1..]);
      assert Firmware.Feed(Firmware.Idle(), bytes) == (r.0, [] + r.1);
      assert [] + r.1 == r.1;
    }
  }

  /** The report line the firmware writes for a received value decodes, on
      the host, to the value's low 24 bits: the fourth byte is dropped. */
  lemma ReportRoundTrip(value: U32)
    ensures Link.DecodeReport(Firmware.ReportLine(value)) == Some(value % 0x100_0000)
  {
    var line := Firmware.ReportLine(value);
    LittleEndianBytesPrefix(value, 3);
    assert PySlice(line, 1, 4) == LittleEndianBytes(value, 3);
    LittleEndianRoundTrip(value, 3);
    PowValues();
  }

  /** Decoding is line by line. */
  lemma {:induction false} DecodeReportsAppend(a: seq<seq<Byte>>, b: seq<seq<Byte>>)
    ensures Link.DecodeReports(a + b) == Link.DecodeReports(a) + Link.DecodeReports(b)
  {
    if b == [] {
      assert a + b == a;
    } else {
      var init := b[..|b| - 1];
      assert (a + b)[..|a + b| - 1] == a + init;
      DecodeReportsAppend(a, init);
    }
  }

  /** Where the first line of `s` ends: after its first line feed, or at
      the end of what arrived. */
  function LineEnd(s: seq<Byte>): (e: nat)
    requires s != []
    ensures 0 < e <= |s|
    ensures Firmware.LineFeed !in s[..e - 1]
    ensures e < |s| ==> s[e - 1] == Firmware.LineFeed
  {
    if s[0] == Firmware.LineFeed || |s| == 1 then 1
    else
      var e := 1 + LineEnd(s[1..]);
      assert s[..e - 1] == [s[0]] + s[1..][..e - 2];
      e
  }

  /** pyserial's `readlines()` on the bytes that arrived: the pieces up to
      and including each line feed, and what is left after the last one. */
  function ReadLines(s: seq<Byte>): (lines: seq<seq<Byte>>)
    ensures Flatten(lines) == s
    ensures forall i :: 0 <= i < |lines| ==>
      lines[i] != [] && Firmware.LineFeed !in lines[i][..|lines[i]| - 1]
    ensures forall i :: 0 <= i < |lines| - 1 ==> lines[i][|lines[i]| - 1] == Firmware.LineFeed
    decreases |s|
  {
    if s == [] then []
    else
      var e := LineEnd(s);
      var rest := ReadLines(s[e..]);
      assert e == |s| ==> rest == [] by {
        if e == |s| { assert s[e..] == []; }
      }
      ReadLinesStep(s, rest);
      [s[..e]] + rest
  }

  /** The first line of `s` in front of the lines of the rest. */
  lemma ReadLinesStep(s: seq<Byte>, rest: seq<seq<Byte>>)
    requires s != [] && Flatten(rest) == s[LineEnd(s)..]
    requires LineEnd(s) == |s| ==> rest == []
    requires forall i :: 0 <= i < |rest| ==>
      rest[i] != [] && Firmware.LineFeed !in rest[i][..|rest[i]| - 1]
    requires forall i :: 0 <= i < |rest| - 1 ==> rest[i][|rest[i]| - 1] == Firmware.LineFeed
    ensures Flatten([s[..LineEnd(s)]] + rest) == s
    ensures forall i :: 0 <= i < |[s[..LineEnd(s)]] + rest| ==>
      ([s[..LineEnd(s)]] + rest)[i] != [] &&
      Firmware.LineFeed !in ([s[..LineEnd(s)]] + rest)[i][..|([s[..LineEnd(s)]] + rest)[i]| - 1]
    ensures forall i :: 0 <= i < |[s[..LineEnd(s)]] + rest| - 1 ==>
      ([s[..LineEnd(s)]] + rest)[i][|([s[..LineEnd(s)]] + rest)[i]| - 1] == Firmware.LineFeed
  {
    var e := LineEnd(s);
    LinesCons(s[..e], rest);
    assert s[..e] + s[e..] == s;
  }

  /** A line in front of others: its bytes come first, and the new list
      still holds lines only, each but the last ended by a line feed. */
  lemma LinesCons(line: seq<Byte>, rest: seq<seq<Byte>>)
    requires line != [] && Firmware.LineFeed !in line[..|line| - 1]
    requires rest != [] ==> line[|line| - 1] == Firmware.LineFeed
    requires forall i :: 0 <= i < |rest| ==>
      rest[i] != [] && Firmware.LineFeed !in rest[i][..|rest[i]| - 1]
    requires forall i :: 0 <= i < |rest| - 1 ==> rest[i][|rest[i]| - 1] == Firmware.LineFeed
    ensures Flatten([line] + rest) == line + Flatten(rest)
    ensures forall i :: 0 <= i < |[line] + rest| ==>
      ([line] + rest)[i] != [] && Firmware.LineFeed !in ([line] + rest)[i][..|([line] + rest)[i]| - 1]
    ensures forall i :: 0 <= i < |[line] + rest| - 1 ==>
      ([line] + rest)[i][|([line] + rest)[i]| - 1] == Firmware.LineFeed
  {
    var lines := [line] + rest;
    assert lines[1..] == rest;
    forall i | 0 < i < |lines| ensures lines[i] == rest[i - 1] { }
  }

  /** A received value whose lowest byte is a line feed: its report is cut
      into two lines, and the host decodes it as 10 instead of 266. */
  lemma ReportSplitByLineFeed()
    ensures Firmware.ReportLine(266) == [82, 10, 1, 0, 0, 10]
    ensures Link.DecodeReports(ReadLines(Firmware.ReportLine(266))) == [10]
    ensures Link.DecodeReports(ReadLines(Firmware.ReportLine(266))) != [266]
  {
    ReportOf266(266);
    SplitReportDecodes(Firmware.ReportLine(266));
  }

  /** The report line of 266: its lowest byte is a line feed. */
  lemma ReportOf266(v: U32)
    requires v == 266
    ensures Firmware.ReportLine(v) == [82, 10, 1, 0, 0, 10]
  {
    assert LittleEndianBytes(v, 4) == [10, 1, 0, 0];
  }

  /** The bytes 52 0A 01 00 00 0A, read line by line, decode to 10 alone. */
  lemma SplitReportDecodes(line: seq<Byte>)
    requires line == [82, 10, 1, 0, 0, 10]
    ensures Link.DecodeReports(ReadLines(line)) == [10]
  {
    var first: seq<Byte>, rest: seq<Byte> := [82, 10], [1, 0, 0, 10];
    assert line == first + rest;
    ReadLinesSplitReport(first, rest);
    DecodeSplitReport(first, rest);
  }

  /** The two pieces decode to the value 10 alone. */
  lemma DecodeSplitReport(first: seq<Byte>, rest: seq<Byte>)
    requires first == [82, 10] && rest == [1, 0, 0, 10]
    ensures Link.DecodeReports([first, rest]) == [10]
  {
    assert Link.DecodeReport(rest) == None;
    assert PySlice(first, 1, 4) == [10];
    assert Link.DecodeReport(first) == Some(10);
    var lines: seq<seq<Byte>> := [first, rest];
    var none: seq<seq<Byte>> := [];
    assert lines[..1] == [first] && lines[..1][..0] == none;
  }

  /** The bytes of the report of 266 read as lines: the line feed in the
      value ends the first line early. */
  lemma ReadLinesSplitReport(first: seq<Byte>, rest: seq<Byte>)
    requires first == [82, 10] && rest == [1, 0, 0, 10]
    ensures ReadLines(first + rest) == [first, rest]
  {
    var line := first + rest;
    assert LineEnd(line) == 2;
    assert line[..2] == first && line[2..] == rest;
    assert LineEnd(rest) == 4 by {
      assert LineEnd(rest[1..][1..]) == 2;
    }
    assert rest[4..] == [] && rest[..4] == rest;
    assert ReadLines(rest) == [rest] + ReadLines([]);
  }

  /** What the firmware writes for a sequence of received values. */
  function ReportStream(values: seq<U32>): (s: seq<Byte>)
    ensures |s| == 6 * |values|
  {
    if values == [] then [] else Firmware.ReportLine(values[0]) + ReportStream(values[1..])
  }

  /** The report stream read report by report, each exactly six bytes long,
      instead of line by line. */
  function ReadReports(s: seq<Byte>): (reports: seq<seq<Byte>>)
    ensures Flatten(reports) == s
    decreases |s|
  {
    if s == [] then []
    else if |s| <= 6 then [s]
    else
      var reports := [s[..6]] + ReadReports(s[6..]);
      assert reports[1..] == ReadReports(s[6..]);
      assert s[..6] + s[6..] == s;
      reports
  }

  /** The low 24 bits of every value, in order: what a 24-bit receiver
      can report of them. */
  function Low24(values: seq<U32>): (r: seq<nat>)
    ensures |r| == |values|
    ensures forall i :: 0 <= i < |values| ==> r[i] == values[i] % 0x100_0000
  {
    if values == [] then [] else [values[0] % 0x100_0000] + Low24(values[1..])
  }

  /** A whole report in front is read as one piece. */
  lemma ReadReportsCons(line: seq<Byte>, rest: seq<Byte>)
    requires |line| == 6
    ensures ReadReports(line + rest) == [line] + ReadReports(rest)
  {
    assert (line + rest)[..6] == line;
    assert (line + rest)[6..] == rest;
  }

  /** A single line decodes to its value, if it is a report. */
  lemma DecodeOne(line: seq<Byte>)
    ensures Link.DecodeReport(line).Some? ==> Link.DecodeReports([line]) == [Link.DecodeReport(line).value]
  {
    var lines: seq<seq<Byte>> := [line];
    assert lines[..0] == [];
  }

  /** Read report by report, every received value reaches the host, low 24
      bits intact, in order. */
  lemma {:induction false} ReportsRoundTrip(values: seq<U32>)
    ensures Link.DecodeReports(ReadReports(ReportStream(values))) == Low24(values)
  {
    if values != [] {
      var line, rest := Firmware.ReportLine(values[0]), ReportStream(values[1..]);
      assert ReportStream(values) == line + rest;
      ReadReportsCons(line, rest);
      DecodeReportsAppend([line], ReadReports(rest));
      ReportRoundTrip(values[0]);
      DecodeOne(line);
      ReportsRoundTrip(values[1..]);
    }
  }

  /** `send_binary` accepts exactly the codes `check_binary` lets through. */
  lemma CheckedBinaryParses(code: string)
    ensures CheckBinary(code).Success? <==> Link.BinaryValue(code).Some?
  {
    var r := CheckBinary(code);
    if |code| > 0 && code[|code| - 1] == '\n' {
      assert !AllIn(code, BinaryDigits);
    }
  }

  /** Writing the value of a string of binary digits with as many digits
      gives the string back: `int(code, 2)` loses nothing. */
  lemma {:induction false} BinaryBitsRoundTrip(digits: string)
    requires forall i :: 0 <= i < |digits| ==> digits[i] == '0' || digits[i] == '1'
    ensures Bits(Link.BinaryDigitsValue(digits), |digits|) == digits
    decreases |digits|
  {
    if digits != [] {
      var init, last := digits[..|digits| - 1], digits[|digits| - 1];
      var v := Link.BinaryDigitsValue(digits);
      var b := if last == '1' then 1 else 0;
      assert v == Link.BinaryDigitsValue(init) * 2 + b;
      assert v / 2 == Link.BinaryDigitsValue(init) && v % 2 == b;
      BinaryBitsRoundTrip(init);
      assert digits == init + [last];
    }
  }

  /** Zero in binary is all '0's. */
  lemma {:induction false} BitsOfZero(j: nat)
    ensures Bits(0, j) == Repeat('0', j)
  {
    if j > 0 {
      BitsOfZero(j - 1);
      RepeatSnoc('0', j - 1);
    }
  }

  /** A value below 2^w written with more digits gains leading '0's. */
  lemma {:induction false} BitsPad(v: nat, w: nat, j: nat)
    requires v < Pow(2, w)
    ensures Bits(v, w + j) == Repeat('0', j) + Bits(v, w)
    decreases w
  {
    if w == 0 {
      BitsOfZero(j);
    } else {
      assert v / 2 < Pow(2, w - 1);
      BitsPad(v / 2, w - 1, j);
      var bit := [if v % 2 == 0 then '0' else '1'];
      assert Bits(v, w + j) == Bits(v / 2, w - 1 + j) + bit;
      assert Bits(v, w) == Bits(v / 2, w - 1) + bit;
    }
  }

  /** A binary code of at most 24 digits, sent with `send_binary` and picked
      up again, prints as the tri-state reading of the code padded with '0's
      to 24 digits. */
  lemma BinaryToTriState(digits: string)
    requires forall i :: 0 <= i < |digits| ==> digits[i] == '0' || digits[i] == '1'
    requires |digits| <= 24
    ensures TriStateOf(Link.BinaryDigitsValue(digits)) == PairSymbols(Repeat('0', 24 - |digits|) + digits)
  {
    BinaryBitsRoundTrip(digits);
    TriStateOfNarrowBits(Link.BinaryDigitsValue(digits), digits);
  }

  /** `to_tri_state` of a value whose w-digit binary text is known. */
  lemma TriStateOfNarrowBits(v: nat, digits: string)
    requires v < Pow(2, |digits|) && |digits| <= 24 && Bits(v, |digits|) == digits
    ensures TriStateOf(v) == PairSymbols(Repeat('0', 24 - |digits|) + digits)
  {
    Format024bNarrow(v, |digits|);
    TriStateOfFormatted(v, Repeat('0', 24 - |digits|) + digits);
  }

  lemma TriStateOfFormatted(v: nat, text: string)
    requires Format024b(v) == text
    ensures TriStateOf(v) == PairSymbols(text)
  {
  }

  /** `"{:024b}"` of a value below 2^w, for w at most 24: w binary digits
      behind leading '0's. */
  lemma Format024bNarrow(v: nat, w: nat)
    requires v < Pow(2, w) && w <= 24
    ensures Format024b(v) == Repeat('0', 24 - w) + Bits(v, w)
  {
    BitLengthBound(v, w);
    BitsPad(v, w, 24 - w);
    assert w + (24 - w) == 24;
  }

  /** Folding a code over {0, 1, F} and reading it back symbol by symbol
      gives the code again. */
  lemma {:induction false} TriDigitsOfDecimal(code: string)
    requires AllIn(code, TriStateSymbols)
    ensures TriDigits(Link.TriStateDecimal(code), |code|) == code
  {
    if code != [] {
      var init, last := code[..|code| - 1], code[|code| - 1];
      assert AllIn(init, TriStateSymbols);
      TriDigitsOfDecimal(init);
      assert Link.TriStateDecimal(code) == Link.TriStateDecimal(init) * 4 + Link.SymbolBits(last);
      TriDigitsSnoc(Link.TriStateDecimal(code), Link.TriStateDecimal(init), init, last, |code|);
      assert code == init + [last];
    }
  }

  /** One more symbol folded in is one more symbol read back. */
  lemma TriDigitsSnoc(v: nat, w: nat, init: string, last: char, k: nat)
    requires last in TriStateSymbols && v == w * 4 + Link.SymbolBits(last)
    requires TriDigits(w, |init|) == init && k == |init| + 1
    ensures TriDigits(v, k) == init + [last]
  {
    assert v / 4 == w && v % 4 == Link.SymbolBits(last);
  }

  lemma {:induction false} TriDigitsOfZero(j: nat)
    ensures TriDigits(0, j) == Repeat('0', j)
  {
    if j > 0 {
      TriDigitsOfZero(j - 1);
      assert Repeat('0', j - 1) + ['0'] == Repeat('0', j);
    }
  }

  /** A value below 4^k read with more symbols gains leading '0's. */
  lemma {:induction false} TriDigitsPad(v: nat, k: nat, j: nat)
    requires v < Pow(4, k)
    ensures TriDigits(v, k + j) == Repeat('0', j) + TriDigits(v, k)
  {
    if k == 0 {
      TriDigitsOfZero(j);
    } else {
      TriDigitsPad(v / 4, k - 1, j);
      assert k + j - 1 == (k - 1) + j;
    }
  }

  /** A value below 4^k, converted by `to_tri_state`, is its k-symbol
      reading after leading '0's. */
  lemma TriStateOfNarrow(v: nat, k: nat)
    requires k <= 12 && v < Pow(4, k)
    ensures TriStateOf(v) == Repeat('0', 12 - k) + TriDigits(v, k)
  {
    assert v < 0x100_0000 by {
      PowMonotone(4, k, 12);
      PowValues();
    }
    TriStateOfBelow24Bits(v);
    TriDigitsPad(v, k, 12 - k);
    assert k + (12 - k) == 12;
  }

  /** A tri-state code of at most 12 symbols, sent and picked up again,
      reads back as itself, padded with leading '0's to 12 symbols. */
  lemma SentTriStateReadsBack(code: string)
    requires AllIn(code, TriStateSymbols) && |code| <= 12
    ensures TriStateOf(Link.TriStateDecimal(code)) == Repeat('0', 12 - |code|) + code
  {
    TriStateOfNarrow(Link.TriStateDecimal(code), |code|);
    TriDigitsOfDecimal(code);
  }

  /** Folding the symbols read from a value gives back at most its low
      2k bits, and exactly those when no 'S' was read ('S' folds as '0'). */
  lemma {:induction false} DecimalOfTriDigits(v: nat, k: nat)
    ensures Link.TriStateDecimal(TriDigits(v, k)) <= v % Pow(4, k)
    ensures Link.TriStateDecimal(TriDigits(v, k)) == v % Pow(4, k) <==> 'S' !in TriDigits(v, k)
  {
    if k > 0 {
      var s := TriDigits(v, k);
      var d := v % 4;
      DecimalOfTriDigits(v / 4, k - 1);
      assert s[..k - 1] == TriDigits(v / 4, k - 1);
      assert s == TriDigits(v / 4, k - 1) + [Symbol(d)];
      DivMod(v, 4, Pow(4, k - 1));
      assert Link.SymbolBits(Symbol(d)) == (if d == 2 then 0 else d);
    }
  }

  /** A received 24-bit value re-sent with `send_tri_state(to_tri_state(v))`
      transmits `v` again exactly when its tri-state code has no 'S'. */
  lemma ReceivedCodeResent(v: nat)
    requires v < 0x100_0000
    ensures Link.TriStateDecimal(TriStateOf(v)) == v <==> 'S' !in TriStateOf(v)
  {
    TriStateOfBelow24Bits(v);
    DecimalOfTriDigits(v, 12);
    assert Pow(4, 12) == 0x100_0000 by { PowValues(); }
    SmallRemainder(v, Pow(4, 12));
  }

  lemma SmallRemainder(v: nat, m: nat)
    requires v < m
    ensures v % m == v
  {
  }
}
