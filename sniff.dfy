/** The `sniff` command, `commands/sniff.py`: what one batch of values read
    by `sniff_multiple` turns into — the values reported (each once, in order
    of first appearance, filtered by the allow-list) and the CSV text
    appended to the log file. The poll loop, the clock and the file system
    are parameters: the batch, its timestamp text and whether the file
    already exists. */
module Sniff {
  import opened Common
  import opened Codec

  /** `os.linesep` on the POSIX hosts the tool targets. */
  const LineSep: string := "\n"
  const Header: string := "Timestamp; Decimal; TriState; State"

  /** The position of the first occurrence of `x`. */
  function IndexOf(s: seq<nat>, x: nat): (i: nat)
    requires x in s
    ensures i < |s| && s[i] == x && x !in s[..i]
  {
    if s[0] == x then 0
    else
      assert x in s[1..];
      var i := 1 + IndexOf(s[1..], x);
      assert s[..i] == [s[0]] + s[1..][..i - 1];
      i
  }

  lemma {:induction false} IndexOfPrefix(s: seq<nat>, t: seq<nat>, x: nat)
    requires x in s
    ensures IndexOf(s + t, x) == IndexOf(s, x)
  {
    if s[0] != x {
      assert (s + t)[1..] == s[1..] + t;
      IndexOfPrefix(s[1..], t, x);
    }
  }

  /** `list(dict.fromkeys(lines))`: the same values, each once, in the order
      of their first occurrence. */
  function Dedupe(values: seq<nat>): (r: seq<nat>)
    ensures forall x :: x in r <==> x in values
    ensures forall i, j :: 0 <= i < j < |r| ==> r[i] != r[j]
    ensures forall i, j :: 0 <= i < j < |r| ==> IndexOf(values, r[i]) < IndexOf(values, r[j])
  {
    if values == [] then []
    else
      var init, last := values[..|values| - 1], values[|values| - 1];
      var rest := Dedupe(init);
      assert values == init + [last];
      forall x | x in init ensures IndexOf(values, x) == IndexOf(init, x) {
        IndexOfPrefix(init, [last], x);
      }
      if last in init then rest
      else
        assert IndexOf(values, last) == |values| - 1;
        rest + [last]
  }

  /** Whether a value passes the allow-list: there is none, or its tri-state
      code is on it. */
  predicate Allowed(allowed: Option<seq<string>>, v: nat)
  {
    allowed.None? || TriStateOf(v) in allowed.value
  }

  /** The values that pass the allow-list, in order. */
  function Keep(values: seq<nat>, allowed: Option<seq<string>>): (r: seq<nat>)
    ensures forall x :: x in r <==> x in values && Allowed(allowed, x)
    ensures (forall i, j :: 0 <= i < j < |values| ==> values[i] != values[j]) ==>
      forall i, j :: 0 <= i < j < |r| ==> r[i] != r[j]
  {
    if values == [] then []
    else
      var init, last := values[..|values| - 1], values[|values| - 1];
      assert values == init + [last];
      var rest := Keep(init, allowed);
      if Allowed(allowed, last) then rest + [last] else rest
  }

  /** Filtering keeps the order of the values: a concatenation is
      filtered piece by piece. */
  lemma {:induction false} KeepAppend(a: seq<nat>, b: seq<nat>, allowed: Option<seq<string>>)
    ensures Keep(a + b, allowed) == Keep(a, allowed) + Keep(b, allowed)
    decreases |b|
  {
    if b == [] {
      assert a + b == a;
    } else {
      var init, last := b[..|b| - 1], b[|b| - 1];
      assert (a + b)[..|a + b| - 1] == a + init && (a + b)[|a + b| - 1] == last;
      KeepAppend(a, init, allowed);
    }
  }

  /** A single value is kept exactly when it passes the allow-list. */
  lemma KeepSingle(v: nat, allowed: Option<seq<string>>)
    ensures Keep([v], allowed) == if Allowed(allowed, v) then [v] else []
  {
    assert [v][..0] == [];
  }

  /** Filtering one more value. */
  lemma KeepStep(values: seq<nat>, i: nat, allowed: Option<seq<string>>)
    requires i < |values|
    ensures Keep(values[..i + 1], allowed) ==
      Keep(values[..i], allowed) + (if Allowed(allowed, values[i]) then [values[i]] else [])
  {
    assert values[..i + 1][..i] == values[..i];
  }

  /** The values one batch reports. */
  function Reported(lines: seq<nat>, allowed: Option<seq<string>>): seq<nat>
  {
    Keep(Dedupe(lines), allowed)
  }

  /** A value is reported exactly when it was read in this batch and passes
      the allow-list, and it is reported once; earlier batches play no part,
      so a value read again later is reported again. */
  lemma ReportedOnce(lines: seq<nat>, allowed: Option<seq<string>>, v: nat)
    ensures v in Reported(lines, allowed) <==> v in lines && Allowed(allowed, v)
    ensures forall i, j :: 0 <= i < j < |Reported(lines, allowed)| ==>
      Reported(lines, allowed)[i] != Reported(lines, allowed)[j]
  {
    var d := Dedupe(lines);
    assert forall i, j :: 0 <= i < j < |d| ==> d[i] != d[j];
  }

  function DigitChar(d: nat): char
    requires d < 10
  {
    ('0' as int + d) as char
  }

  predicate IsDigits(s: string)
  {
    forall i :: 0 <= i < |s| ==> '0' <= s[i] <= '9'
  }

  /** `str(n)`: decimal digits, no leading zero. */
  function NatToString(n: nat): (s: string)
    ensures |s| > 0 && IsDigits(s) && (s[0] == '0' ==> n == 0)
  {
    if n < 10 then [DigitChar(n)]
    else NatToString(n / 10) + [DigitChar(n % 10)]
  }

  /** The value of a string of decimal digits. */
  function ParseDecimal(s: string): nat
    requires IsDigits(s)
  {
    if s == [] then 0
    else ParseDecimal(s[..|s| - 1]) * 10 + (s[|s| - 1] as int - '0' as int)
  }

  /** The decimal column reads back as the value. */
  lemma {:induction false} DecimalRoundTrip(n: nat)
    ensures ParseDecimal(NatToString(n)) == n
  {
    if n >= 10 {
      DecimalRoundTrip(n / 10);
      var s := NatToString(n);
      assert s[..|s| - 1] == NatToString(n / 10);
    }
  }

  /** Python's `str` of a bool. */
  function StateText(on: bool): string
  {
    if on then "True" else "False"
  }

  /** The text of the row format: the four columns separated by "; ". */
  function RowText(now: string, v: nat, tri: string, on: bool): string
  {
    now + "; " + NatToString(v) + "; " + tri + "; " + StateText(on) + LineSep
  }

  /** The log row of a value: timestamp, decimal value, tri-state code and
      on/off state. */
  function Row(now: string, v: nat): string
  {
    RowText(now, v, TriStateOf(v), TriStateValue(TriStateOf(v)))
  }

  /** The rows of a batch, all with the batch's one timestamp. */
  function Rows(now: string, values: seq<nat>): string
  {
    if values == [] then ""
    else Rows(now, values[..|values| - 1]) + Row(now, values[|values| - 1])
  }

  /** One more value adds its row at the end. */
  lemma RowsSnoc(now: string, values: seq<nat>, v: nat)
    ensures Rows(now, values + [v]) == Rows(now, values) + Row(now, v)
  {
    assert (values + [v])[..|values|] == values;
  }

  /** A "; " between two texts is the separator followed by a space. */
  lemma SemiSpace(x: string, y: string)
    ensures x + "; " + y == x + [';'] + (" " + y)
  {
    assert "; " == [';'] + " ";
  }

  /** Text without ';' after the last separator splits off as the last piece. */
  lemma SplitLast(x: string, y: string)
    requires ';' !in y
    ensures Split(x + [';'] + y, ';') == Split(x, ';') + [y]
  {
    SplitAround(x, ';', y);
    SplitNoSeparator(y, ';');
  }

  /** Split on ';', a row gives back its columns, each after the first
      with its leading space, as long as the timestamp and the tri-state
      code hold no ';'. */
  lemma RowTextColumns(now: string, v: nat, tri: string, on: bool)
    requires ';' !in now && ';' !in tri
    ensures Split(RowText(now, v, tri, on), ';') ==
      [now, " " + NatToString(v), " " + tri, " " + StateText(on) + LineSep]
  {
    var d, t, st := " " + NatToString(v), " " + tri, " " + StateText(on) + LineSep;
    assert ';' !in d;
    assert ';' !in st;
    var r1 := now + "; " + NatToString(v);
    var r2 := r1 + "; " + tri;
    var r3 := r2 + "; " + StateText(on);
    SemiSpace(now, NatToString(v));
    SemiSpace(r1, tri);
    SemiSpace(r2, StateText(on));
    assert RowText(now, v, tri, on) == r3 + LineSep;
    assert r3 + LineSep == r2 + [';'] + st;
    SplitNoSeparator(now, ';');
    SplitLast(now, d);
    SplitLast(r1, t);
    SplitLast(r2, st);
  }

  /** Split on ';', as the log is read back, a row of a 24-bit value has
      four columns: the timestamp, then the decimal value, the 12-symbol
      tri-state code and its state, each after one space. */
  lemma RowColumns(now: string, v: nat)
    requires ';' !in now && v < 0x100_0000
    ensures Split(Row(now, v), ';') ==
      [now, " " + NatToString(v), " " + TriStateOf(v), " " + StateText(TriStateValue(TriStateOf(v))) + LineSep]
  {
    TriStateOfBelow24Bits(v);
    TriDigitsAlphabet(v, 12);
    RowTextColumns(now, v, TriStateOf(v), TriStateValue(TriStateOf(v)));
  }

  /** The state column of a received 24-bit value says "True" exactly when
      its last 2-bit group is 01, the tri-state 'F'. */
  lemma StateColumn(v: nat)
    requires v < 0x100_0000
    ensures StateText(TriStateValue(TriStateOf(v))) == "True" <==> v % 4 == 1
  {
    OnStateOfReceived(v);
  }

  /** The terminal branch of `__log_lines`: walk the deduplicated batch and
      report every value that passes the allow-list. */
  method PrintBatch(batch: seq<nat>, allowed: Option<seq<string>>) returns (printed: seq<nat>)
    ensures printed == Keep(batch, allowed)
  {
    printed := [];
    for i := 0 to |batch|
      invariant printed == Keep(batch[..i], allowed)
    {
      KeepStep(batch, i, allowed);
      var tri := ToTriState(batch[i]);
      if allowed.None? || tri in allowed.value {
        printed := printed + [batch[i]];
      } else {
        assert !Allowed(allowed, batch[i]);
        assert printed + [] == printed;
      }
    }
    assert batch[..|batch|] == batch;
  }

  /** The file branch of `__log_lines`, once the file is open for
      appending: a row for every value of the deduplicated batch that passes
      the allow-list, each value also reported. */
  method AppendBatch(batch: seq<nat>, allowed: Option<seq<string>>, now: string)
    returns (printed: seq<nat>, rows: string)
    ensures printed == Keep(batch, allowed)
    ensures rows == Rows(now, printed)
  {
    printed, rows := [], "";
    for i := 0 to |batch|
      invariant printed == Keep(batch[..i], allowed)
      invariant rows == Rows(now, printed)
    {
      KeepStep(batch, i, allowed);
      var l := batch[i];
      var tri := ToTriState(l);
      if allowed.None? || tri in allowed.value {
        var val := TriStateValue(tri);
        var row := RowText(now, l, tri, val);
        assert row == Row(now, l);
        RowsSnoc(now, printed, l);
        rows := rows + row;
        printed := printed + [l];
      } else {
        assert !Allowed(allowed, l);
        assert printed + [] == printed;
      }
    }
    assert batch[..|batch|] == batch;
  }

  /** The body of one iteration of `__log_lines`, for the batch `lines`
      read at time `now`: without an out file, report the values on the
      terminal; with one, write the header first if the file does not exist
      yet, then append a row for every value reported. `printed` is the
      values reported, `appended` the text added to the file. */
  method LogBatch(lines: seq<nat>, allowed: Option<seq<string>>, now: string, out: bool, fileExists: bool)
    returns (printed: seq<nat>, appended: string)
    ensures printed == Reported(lines, allowed)
    ensures !out ==> appended == ""
    ensures out ==> appended == (if fileExists then "" else Header + LineSep) + Rows(now, printed)
  {
    var batch := Dedupe(lines);
    if !out {
      printed := PrintBatch(batch, allowed);
      appended := "";
    } else {
      appended := "";
      if !fileExists {
        appended := Header + LineSep;
      }
      var rows;
      printed, rows := AppendBatch(batch, allowed, now);
      appended := appended + rows;
    }
  }
}
