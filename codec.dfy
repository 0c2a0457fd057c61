/** The switch-code conversions and input validators of `util.py`: checking
    binary and tri-state codes typed by the operator, turning a received
    24-bit value into a tri-state code, and reading the on/off state and the
    group/device address out of a tri-state code. */
module Codec {
  import opened Common

  /** argparse's `ArgumentTypeError`, raised by the validators. */
  datatype ArgumentError = ArgumentTypeError(message: string)

  predicate AllIn(s: string, alphabet: set<char>)
  {
    forall i :: 0 <= i < |s| ==> s[i] in alphabet
  }

  /** Whether Python's `re.match('^[...]+$', code)` succeeds for a character
      class `alphabet` that does not contain a newline: `$` matches at the end
      of the text and also just before a final '\n'. */
  predicate MatchesWhole(code: string, alphabet: set<char>)
  {
    if |code| > 0 && code[|code| - 1] == '\n' then
      |code| > 1 && AllIn(code[..|code| - 1], alphabet)
    else
      |code| > 0 && AllIn(code, alphabet)
  }

  const BinaryDigits: set<char> := {'0', '1'}
  const TriStateSymbols: set<char> := {'0', '1', 'F'}

  /** `check_binary`: returns the code unchanged when it is a non-empty
      string of binary digits, optionally followed by one newline. */
  function CheckBinary(code: string): (r: Result<string, ArgumentError>)
    ensures r.Success? <==>
      (|code| > 0 && AllIn(code, BinaryDigits)) ||
      (|code| > 1 && code[|code| - 1] == '\n' && AllIn(code[..|code| - 1], BinaryDigits))
    ensures r.Success? ==> r.value == code
    ensures r.Failure? ==> r.error.message == code + " is not a valid binary code"
  {
    if !MatchesWhole(code, BinaryDigits) then
      Failure(ArgumentTypeError(code + " is not a valid binary code"))
    else
      Success(code)
  }

  /** `check_tri_state`: returns the code unchanged when it is a non-empty
      string over {0, 1, F}, optionally followed by one newline. */
  function CheckTriState(code: string): (r: Result<string, ArgumentError>)
    ensures r.Success? <==>
      (|code| > 0 && AllIn(code, TriStateSymbols)) ||
      (|code| > 1 && code[|code| - 1] == '\n' && AllIn(code[..|code| - 1], TriStateSymbols))
    ensures r.Success? ==> r.value == code
    ensures r.Failure? ==> r.error.message == code + " is not a valid tri-state code"
  {
    if !MatchesWhole(code, TriStateSymbols) then
      Failure(ArgumentTypeError(code + " is not a valid tri-state code"))
    else
      Success(code)
  }

  /** `check_tri_state_pair`: "trigger:response" becomes the pair of codes;
      any other number of ':' or an invalid side raises. */
  function CheckTriStatePair(pair: string): (r: Result<(string, string), ArgumentError>)
    ensures r.Success? ==>
      && pair == r.value.0 + [':'] + r.value.1
      && CheckTriState(r.value.0).Success?
      && CheckTriState(r.value.1).Success?
    ensures Count(pair, ':') != 1 ==>
      r == Failure(ArgumentTypeError(pair + " is not a valid tri state pair"))
  {
    var codes := Split(pair, ':');
    SplitSpec(pair, ':');
    if |codes| != 2 then
      Failure(ArgumentTypeError(pair + " is not a valid tri state pair"))
    else
      match CheckTriState(codes[0])
      case Failure(e) => Failure(e)
      case Success(trigger) =>
        match CheckTriState(codes[1])
        case Failure(e) => Failure(e)
        case Success(response) =>
          assert Join(codes, ':') == codes[0] + [':'] + codes[1];
          Success((trigger, response))
  }

  /** Every trigger and response made of valid codes joined by one ':' is
      accepted and split back into the same two codes. */
  lemma PairAccepted(trigger: string, response: string)
    requires CheckTriState(trigger).Success? && CheckTriState(response).Success?
    ensures CheckTriStatePair(trigger + [':'] + response) == Success((trigger, response))
  {
    assert ':' !in trigger && ':' !in response by {
      if ':' in trigger { var i :| 0 <= i < |trigger| && trigger[i] == ':'; }
      if ':' in response { var i :| 0 <= i < |response| && response[i] == ':'; }
    }
    SplitAround(trigger, ':', response);
    SplitNoSeparator(trigger, ':');
    SplitNoSeparator(response, ':');
  }

  /* ---------------------------------------------------------------------
     to_tri_state: "{:024b}".format(value), then one symbol per pair of
     binary digits.
     --------------------------------------------------------------------- */

  /** The number of binary digits of `v` (Python's `int.bit_length`). */
  function BitLength(v: nat): nat
  {
    if v == 0 then 0 else 1 + BitLength(v / 2)
  }

  /** The `w` lowest binary digits of `v`, most significant first. */
  function Bits(v: nat, w: nat): (s: string)
    ensures |s| == w
  {
    if w == 0 then "" else Bits(v / 2, w - 1) + [if v % 2 == 0 then '0' else '1']
  }

  /** `"{:024b}".format(v)`: the binary digits of `v`, left-padded with '0'
      to at least 24 characters. */
  function Format024b(v: nat): string
  {
    Bits(v, if BitLength(v) < 24 then 24 else BitLength(v))
  }

  /** The symbol appended for one slice `string[i:i+2]`; a slice that is none
      of the four patterns (a single trailing digit) appends nothing. */
  function PairSymbol(pair: string): string
  {
    if pair == "01" then "F"
    else if pair == "11" then "1"
    else if pair == "00" then "0"
    else if pair == "10" then "S"
    else ""
  }

  /** The symbols for the slices `s[0:2]`, `s[2:4]`, ... in order. */
  function PairSymbols(s: string): string
    decreases |s|
  {
    if s == [] then ""
    else
      var k := if |s| < 2 then |s| else 2;
      PairSymbol(s[..k]) + PairSymbols(s[k..])
  }

  /** What `to_tri_state(v)` returns. */
  function TriStateOf(v: nat): string
  {
    PairSymbols(Format024b(v))
  }

  /** The tri-state symbol of one 2-bit group. */
  function Symbol(d: nat): char
    requires d < 4
  {
    if d == 0 then '0' else if d == 1 then 'F' else if d == 2 then 'S' else '1'
  }

  /** The `k` lowest 2-bit groups of `v` as symbols, most significant first:
      the reference reading of a value as a tri-state code. */
  function TriDigits(v: nat, k: nat): (s: string)
    ensures |s| == k
  {
    if k == 0 then "" else TriDigits(v / 4, k - 1) + [Symbol(v % 4)]
  }

  /** `to_tri_state`: format the value as at least 24 binary digits and
      append one symbol per slice of two digits (the `if`/`elif` chain on the
      slice is PairSymbol). What this yields for a 24-bit
      value is stated by TriStateOfBelow24Bits and TriStateSymbolsAt. */
  method ToTriState(value: nat) returns (triState: string)
    ensures triState == TriStateOf(value)
  {
    triState := "";
    var s := Format024b(value);
    var i := 0;
    while i < |s|
      invariant 0 <= i <= |s|
      invariant triState + PairSymbols(s[i..]) == PairSymbols(s)
    {
      var end := if i + 2 <= |s| then i + 2 else |s|;
      var pair := s[i..end];
      PairSymbolsFrom(s, i);
      assert PairSymbols(s[i..]) == PairSymbol(pair) + PairSymbols(s[end..]);
      ghost var before := triState;
      triState := triState + PairSymbol(pair);
      assert before + (PairSymbol(pair) + PairSymbols(s[end..])) == triState + PairSymbols(s[end..]);
      i := end;
    }
    assert s[|s|..] == [];
  }

  /** Symbol `i` of a received code is decided by bits 23-2i and 22-2i of
      the value. */
  lemma TriStateSymbolsAt(v: nat)
    requires v < 0x100_0000
    ensures |TriStateOf(v)| == 12
    ensures forall i :: 0 <= i < 12 ==> TriStateOf(v)[i] == Symbol(v / Pow(4, 11 - i) % 4)
  {
    TriStateOfBelow24Bits(v);
    forall i | 0 <= i < 12 ensures TriStateOf(v)[i] == Symbol(v / Pow(4, 11 - i) % 4) {
      TriDigitsAt(v, 12, i);
    }
  }

  function Min(a: int, b: int): int
  {
    if a < b then a else b
  }

  /** One step of the slicing loop: the symbols from position `i` on are the
      symbol of the slice at `i` followed by the symbols after it. */
  lemma PairSymbolsFrom(s: string, i: nat)
    requires i < |s|
    ensures PairSymbols(s[i..]) == PairSymbol(s[i..Min(i + 2, |s|)]) + PairSymbols(s[Min(i + 2, |s|)..])
  {
    var k := Min(i + 2, |s|) - i;
    assert s[i..][..k] == s[i..Min(i + 2, |s|)];
    assert s[i..][k..] == s[Min(i + 2, |s|)..];
  }

  lemma {:induction false} PairSymbolsAppend(a: string, b: string)
    requires |a| % 2 == 0
    ensures PairSymbols(a + b) == PairSymbols(a) + PairSymbols(b)
    decreases |a|
  {
    if a == [] {
      assert a + b == b;
    } else {
      assert (a + b)[..2] == a[..2];
      assert (a + b)[2..] == a[2..] + b;
      PairSymbolsAppend(a[2..], b);
    }
  }

  /** The last two binary digits of `v` are the digits of `v % 4`. */
  lemma BitsSplitLowPair(v: nat, w: nat)
    ensures Bits(v, w + 2) == Bits(v / 4, w) + Bits(v % 4, 2)
  {
    DivMod(v, 2, 2);
    assert Bits(v, w + 2) == Bits(v / 2, w + 1) + [if v % 2 == 0 then '0' else '1'];
    assert Bits(v / 2, w + 1) == Bits(v / 2 / 2, w) + [if (v / 2) % 2 == 0 then '0' else '1'];
    assert (v % 4) / 2 == (v / 2) % 2 && (v % 4) % 2 == v % 2;
  }

  lemma PairOfTwoBits(d: nat)
    requires d < 4
    ensures PairSymbols(Bits(d, 2)) == [Symbol(d)]
  {
    var pair := Bits(d, 2);
    assert pair[..2] == pair && pair[2..] == [];
    assert PairSymbols(pair) == PairSymbol(pair) + PairSymbols([]);
    if d == 0 { assert pair == "00"; }
    else if d == 1 { assert pair == "01"; }
    else if d == 2 { assert pair == "10"; }
    else { assert pair == "11"; }
  }

  /** Reading the binary digits two at a time is reading the value in
      base 4. */
  lemma {:induction false} PairSymbolsOfBits(v: nat, k: nat)
    ensures PairSymbols(Bits(v, 2 * k)) == TriDigits(v, k)
  {
    if k > 0 {
      LowPairSymbol(v, k);
      PairSymbolsOfBits(v / 4, k - 1);
    }
  }

  /** The last two binary digits of `v` give the last symbol. */
  lemma LowPairSymbol(v: nat, k: nat)
    requires k > 0
    ensures PairSymbols(Bits(v, 2 * k)) == PairSymbols(Bits(v / 4, 2 * (k - 1))) + [Symbol(v % 4)]
  {
    var w := 2 * (k - 1);
    assert w + 2 == 2 * k;
    LowPairSymbolAt(v, w);
  }

  lemma LowPairSymbolAt(v: nat, w: nat)
    requires w % 2 == 0
    ensures PairSymbols(Bits(v, w + 2)) == PairSymbols(Bits(v / 4, w)) + [Symbol(v % 4)]
  {
    BitsSplitLowPair(v, w);
    PairSymbolsAppend(Bits(v / 4, w), Bits(v % 4, 2));
    PairOfTwoBits(v % 4);
  }

  lemma {:induction false} BitLengthBound(v: nat, n: nat)
    requires v < Pow(2, n)
    ensures BitLength(v) <= n
  {
    if v > 0 {
      BitLengthBound(v / 2, n - 1);
    }
  }

  /** For a 24-bit value `to_tri_state` is the 12-symbol base-4 reading. */
  lemma TriStateOfBelow24Bits(v: nat)
    requires v < 0x100_0000
    ensures TriStateOf(v) == TriDigits(v, 12)
  {
    PowValues();
    BitLengthBound(v, 24);
    PairSymbolsOfBits(v, 12);
  }

  lemma {:induction false} TriDigitsAt(v: nat, k: nat, i: nat)
    requires i < k
    ensures TriDigits(v, k)[i] == Symbol(v / Pow(4, k - 1 - i) % 4)
  {
    if i < k - 1 {
      TriDigitsAt(v / 4, k - 1, i);
      DivMod(v, 4, Pow(4, k - 2 - i));
    }
  }

  /** Every symbol of a received code is one of 0, 1, F, S. */
  lemma {:induction false} TriDigitsAlphabet(v: nat, k: nat)
    ensures AllIn(TriDigits(v, k), {'0', '1', 'F', 'S'})
  {
    if k > 0 {
      TriDigitsAlphabet(v / 4, k - 1);
    }
  }

  /** `tri_state_value`: `'F' == tri_state[-1:]`, so a code turns its switch
      on exactly when its last symbol is 'F'; the empty code is "off". */
  function TriStateValue(triState: string): (on: bool)
    ensures on <==> |triState| > 0 && triState[|triState| - 1] == 'F'
  {
    "F" == PySlice(triState, -1, |triState|)
  }

  /** A received code is "on" exactly when the value's two lowest bits are
      01. */
  lemma OnStateOfReceived(v: nat)
    requires v < 0x100_0000
    ensures TriStateValue(TriStateOf(v)) <==> v % 4 == 1
  {
    TriStateOfBelow24Bits(v);
  }

  /** Python's `s.find(c)`: the first index of `c`, or -1. */
  function Find(s: string, c: char): (r: int)
    ensures -1 <= r < |s|
    ensures r == -1 <==> c !in s
    ensures r >= 0 ==> s[r] == c && c !in s[..r]
  {
    if s == [] then -1
    else if s[0] == c then 0
    else
      var r := Find(s[1..], c);
      assert r >= 0 ==> s[..r + 1] == [s[0]] + s[1..][..r];
      if r == -1 then -1 else r + 1
  }

  /** `tri_state_part_to_number`: for a 4-symbol part, one more than the
      index of its first '0' (so 1..4, or 0 when there is no '0'); `None`
      for any other length. */
  function TriStatePartToNumber(part: string): (r: Option<int>)
    ensures r.Some? <==> |part| == 4
    ensures r.Some? ==> 0 <= r.value <= 4
    ensures r.Some? ==> (r.value == 0 <==> '0' !in part)
    ensures r.Some? && r.value > 0 ==> part[r.value - 1] == '0' && '0' !in part[..r.value - 1]
  {
    if |part| == 4 then Some(Find(part, '0') + 1) else None
  }

  /** `tri_state_device`: "G-<group> D-<letter>" where the group is the
      number of the first four symbols and the letter is '@' plus the number
      of the next four. For a code shorter than 8 the device number is
      `None` and `chr(ord('@') + None)` raises, modelled as `None`. */
  function TriStateDevice(triState: string): (r: Option<string>)
    ensures r.Some? <==> |triState| >= 8
    ensures r.Some? ==>
      && |r.value| == 7
      && r.value[..2] == "G-" && r.value[3..6] == " D-"
      && '0' <= r.value[2] <= '4' && '@' <= r.value[6] <= 'D'
      && r.value[2] as int - '0' as int == TriStatePartToNumber(triState[..4]).value
      && r.value[6] as int - '@' as int == TriStatePartToNumber(triState[4..8]).value
  {
    var group := TriStatePartToNumber(PySlice(triState, 0, 4));
    var device := TriStatePartToNumber(PySlice(triState, 4, 8));
    match device
    case None => None
    case Some(d) =>
      var g := if group.Some? then [('0' as int + group.value) as char] else "None";
      Some("G-" + g + " D-" + [('@' as int + d) as char])
  }

  /** The example address: "0F1F0F1F0000" is group 1, device A. */
  lemma DeviceExample()
    ensures TriStateDevice("0F1F0F1F0000") == Some("G-1 D-A")
  {
    assert PySlice("0F1F0F1F0000", 0, 4) == "0F1F";
    assert PySlice("0F1F0F1F0000", 4, 8) == "0F1F";
    assert Find("0F1F", '0') == 0;
    assert TriStatePartToNumber("0F1F") == Some(1);
    assert ('0' as int + 1) as char == '1' && ('@' as int + 1) as char == 'A';
    assert "G-" + "1" + " D-" + "A" == "G-1 D-A";
  }
}
