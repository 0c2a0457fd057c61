/** The `block` command, `commands/block.py`: one iteration of the reactive
    blocker (answer a received trigger code with a burst of a response
    code), one pass of the aggressive blocker (send every configured code),
    and the choice between the two. The `while not interrupted` loops around
    them, the pauses and the console output are not part of this model. */
module Block {
  import opened Common
  import opened Codec
  import Link
  import Firmware
  import Protocol

  /** How many times a response is sent for one detected trigger. */
  const Burst: nat := 5

  /** Whether `t` occurs as a trigger in `pairs[lo..]`. */
  predicate TriggeredAfter(pairs: seq<(string, string)>, lo: nat, t: string)
  {
    exists j :: lo <= j < |pairs| && pairs[j].0 == t
  }

  /** A trigger occurs in `pairs[lo..]` when it occurs before the last pair
      or is the last pair's. */
  lemma TriggeredAfterLast(pairs: seq<(string, string)>, lo: nat, t: string)
    requires lo < |pairs|
    ensures TriggeredAfter(pairs, lo, t) <==>
      TriggeredAfter(pairs[..|pairs| - 1], lo, t) || pairs[|pairs| - 1].0 == t
  {
    var init := pairs[..|pairs| - 1];
    if TriggeredAfter(init, lo, t) {
      var j :| lo <= j < |init| && init[j].0 == t;
      assert pairs[j] == init[j];
    }
    if TriggeredAfter(pairs, lo, t) && pairs[|pairs| - 1].0 != t {
      var j :| lo <= j < |pairs| && pairs[j].0 == t;
      assert init[j] == pairs[j];
    }
  }

  /** `dict(self.args.reactive)`: every trigger maps to the response of its
      last pair. */
  function ReactiveTable(pairs: seq<(string, string)>): (table: map<string, string>)
    ensures forall t :: t in table <==> TriggeredAfter(pairs, 0, t)
    ensures forall i :: 0 <= i < |pairs| && !TriggeredAfter(pairs, i + 1, pairs[i].0) ==>
      pairs[i].0 in table && table[pairs[i].0] == pairs[i].1
  {
    if pairs == [] then map[]
    else
      var init := pairs[..|pairs| - 1];
      var rest := ReactiveTable(init);
      TableStep(pairs, init, rest);
      rest[pairs[|pairs| - 1].0 := pairs[|pairs| - 1].1]
  }

  /** Adding the last pair to the table of the others keeps the table keyed
      by the triggers, each with the response of its last pair. */
  lemma TableStep(pairs: seq<(string, string)>, init: seq<(string, string)>, rest: map<string, string>)
    requires pairs != [] && init == pairs[..|pairs| - 1]
    requires forall t :: t in rest <==> TriggeredAfter(init, 0, t)
    requires forall i :: 0 <= i < |init| && !TriggeredAfter(init, i + 1, init[i].0) ==>
      init[i].0 in rest && rest[init[i].0] == init[i].1
    ensures forall t :: t in rest[pairs[|pairs| - 1].0 := pairs[|pairs| - 1].1] <==> TriggeredAfter(pairs, 0, t)
    ensures forall i :: 0 <= i < |pairs| && !TriggeredAfter(pairs, i + 1, pairs[i].0) ==>
      pairs[i].0 in rest[pairs[|pairs| - 1].0 := pairs[|pairs| - 1].1] &&
      rest[pairs[|pairs| - 1].0 := pairs[|pairs| - 1].1][pairs[i].0] == pairs[i].1
  {
    var last := pairs[|pairs| - 1];
    var table := rest[last.0 := last.1];
    forall t ensures t in table <==> TriggeredAfter(pairs, 0, t) {
      TriggeredAfterLast(pairs, 0, t);
    }
    forall i | 0 <= i < |pairs| && !TriggeredAfter(pairs, i + 1, pairs[i].0)
      ensures pairs[i].0 in table && table[pairs[i].0] == pairs[i].1
    {
      if i < |init| {
        TriggeredAfterLast(pairs, i + 1, pairs[i].0);
        assert init[i] == pairs[i];
      }
    }
  }

  /** The response the reactive blocker sends for what `sniff_single`
      returned, if any: only a value whose tri-state code is a trigger. */
  function ReactiveResponse(blocking: map<string, string>, received: Option<nat>): (r: Option<string>)
    ensures r.Some? <==> received.Some? && TriStateOf(received.value) in blocking
    ensures r.Some? ==> r.value == blocking[TriStateOf(received.value)]
  {
    match received
    case None => None
    case Some(v) =>
      var code := TriStateOf(v);
      if code in blocking then Some(blocking[code]) else None
  }

  /** The host reads 24-bit values, whose tri-state codes have 12 symbols:
      a trigger of any other length never fires. */
  lemma ShortTriggerNeverFires(blocking: map<string, string>, line: seq<Byte>, trigger: string)
    requires |trigger| != 12
    ensures Link.DecodeReport(line).Some? ==> TriStateOf(Link.DecodeReport(line).value) != trigger
  {
    if Link.DecodeReport(line).Some? {
      TriStateSymbolsAt(Link.DecodeReport(line).value);
    }
  }

  /** What a detected trigger leads to: its response sent five times; an
      OverflowError from an over-long response ends the blocker. */
  method SendBurst(a: Link.Arduino, response: string) returns (outcome: Outcome<Link.SendError>)
    requires a.Valid() && a.connected
    modifies a
    ensures a.Valid() && a.connected
    ensures Link.TriStatePayload(response).Failure? ==>
      && outcome == Fail(Link.TriStatePayload(response).error)
      && a.payloads == old(a.payloads) && a.written == old(a.written)
    ensures Link.TriStatePayload(response).Success? ==>
      var p := Link.TriStatePayload(response).value;
      && outcome == Pass && a.payloads == old(a.payloads) + Repeat(p, Burst)
      && a.written == old(a.written) + Link.FramesOf(Repeat(p, Burst))
  {
    outcome := Pass;
    ghost var payload := Link.TriStatePayload(response);
    ghost var start := a.payloads;
    for i := 0 to Burst
      invariant a.Valid() && a.connected && outcome == Pass
      invariant payload.Failure? ==> i == 0 && a.payloads == start
      invariant payload.Success? ==> a.payloads == start + Repeat(payload.value, i)
    {
      outcome := a.SendTriState(response);
      if outcome.Fail? {
        return;
      }
      RepeatSnoc(payload.value, i);
    }
    if payload.Success? {
      var burst := Repeat(payload.value, Burst);
      assert Link.AllFit(burst);
      Link.FramesOfAppend(start, burst);
    }
  }

  /** One iteration of `__block_reactive`, given the line the serial port
      delivers: nothing is sent unless the value read is a trigger, whose
      response is then sent as a burst. */
  method ReactiveIteration(a: Link.Arduino, blocking: map<string, string>, line: seq<Byte>)
    returns (outcome: Outcome<Link.SendError>, response: Option<string>)
    requires a.Valid() && a.connected
    modifies a
    ensures a.Valid() && a.connected
    ensures response == ReactiveResponse(blocking, Link.DecodeReport(line))
    ensures response.None? ==>
      outcome == Pass && a.payloads == old(a.payloads) && a.written == old(a.written)
    ensures response.Some? && Link.TriStatePayload(response.value).Failure? ==>
      && outcome == Fail(Link.TriStatePayload(response.value).error)
      && a.payloads == old(a.payloads) && a.written == old(a.written)
    ensures response.Some? && Link.TriStatePayload(response.value).Success? ==>
      var p := Link.TriStatePayload(response.value).value;
      && outcome == Pass && a.payloads == old(a.payloads) + Repeat(p, Burst)
      && a.written == old(a.written) + Link.FramesOf(Repeat(p, Burst))
  {
    outcome, response := Pass, None;
    var received := a.SniffSingle(line);
    if received.None? {
      return;
    }
    var code := ToTriState(received.value);
    if code !in blocking {
      return;
    }
    response := Some(blocking[code]);
    outcome := SendBurst(a, blocking[code]);
  }

  /** The firmware answers a burst of `n` frames of a response of at most 16
      symbols with `n` transmissions of its value, each followed by a reset
      of the receiver. */
  lemma {:induction false} BurstTransmits(response: string, n: nat)
    requires |response| <= 16
    ensures Link.TriStatePayload(response).Success?
    ensures Link.AllFit(Repeat(Link.TriStatePayload(response).value, n))
    ensures Firmware.Feed(Firmware.Idle(), Link.FramesOf(Repeat(Link.TriStatePayload(response).value, n)))
         == (Firmware.Idle(), Flatten(Repeat(
              [Firmware.Transmit(Link.TriStateDecimal(response), 2 * |response|), Firmware.ResetAvailable], n)))
  {
    Protocol.TriStateTransmits(response);
    var p := Link.TriStatePayload(response).value;
    var calls := [Firmware.Transmit(Link.TriStateDecimal(response), 2 * |response|), Firmware.ResetAvailable];
    if n > 0 {
      BurstTransmits(response, n - 1);
      var before := Repeat(p, n - 1);
      assert Repeat(p, n) == before + [p];
      assert Repeat(calls, n) == Repeat(calls, n - 1) + [calls];
      FlattenAppend(Repeat(calls, n - 1), calls);
      Firmware.FeedAppend(Firmware.Idle(), Link.FramesOf(before), Link.Frame(p));
    }
  }

  /** The payloads one aggressive pass sends, in order, and how the pass
      ends: the codes up to the first one whose value overflows, which
      raises. */
  function PassPayloads(codes: seq<string>): (r: (seq<seq<Byte>>, Outcome<Link.SendError>))
    ensures |r.0| <= |codes| && Link.AllFit(r.0)
    ensures forall i :: 0 <= i < |r.0| ==> Link.TriStatePayload(codes[i]) == Success(r.0[i])
    ensures r.1.Pass? <==> |r.0| == |codes|
    ensures r.1.Fail? ==> |r.0| < |codes| && Link.TriStatePayload(codes[|r.0|]) == Failure(r.1.error)
  {
    if codes == [] then ([], Pass)
    else
      match Link.TriStatePayload(codes[0])
      case Failure(e) => ([], Fail(e))
      case Success(p) =>
        var rest := PassPayloads(codes[1..]);
        PassCons(codes, p, rest.0);
        assert rest.1.Fail? ==> codes[1..][|rest.0|] == codes[|rest.0| + 1];
        ([p] + rest.0, rest.1)
  }

  /** The payload of the first code in front of the payloads of the others. */
  lemma PassCons(codes: seq<string>, p: seq<Byte>, ps: seq<seq<Byte>>)
    requires codes != [] && Link.TriStatePayload(codes[0]) == Success(p)
    requires |ps| <= |codes| - 1 && Link.AllFit(ps)
    requires forall i :: 0 <= i < |ps| ==> Link.TriStatePayload(codes[1..][i]) == Success(ps[i])
    ensures Link.AllFit([p] + ps)
    ensures forall i :: 0 <= i < |[p] + ps| ==> Link.TriStatePayload(codes[i]) == Success(([p] + ps)[i])
  {
    assert |p| <= Link.MaxPayload;
    forall i | 0 < i < |[p] + ps| ensures Link.TriStatePayload(codes[i]) == Success(([p] + ps)[i]) {
      assert codes[1..][i - 1] == codes[i];
    }
  }

  /** A pass over codes of at most 16 symbols sends every one of them once,
      in list order. */
  lemma {:induction false} PassSendsEveryCode(codes: seq<string>)
    requires forall i :: 0 <= i < |codes| ==> |codes[i]| <= 16
    ensures PassPayloads(codes).1 == Pass
  {
    if codes != [] {
      Link.TriStateFits(codes[0]);
      PassSendsEveryCode(codes[1..]);
    }
  }

  /** A pass over `codes[i..]` is the send of `codes[i]` followed by the
      pass over `codes[i + 1..]`, or ends there when that send raises. */
  lemma PassPayloadsFrom(codes: seq<string>, i: nat)
    requires i < |codes|
    ensures Link.TriStatePayload(codes[i]).Failure? ==>
      PassPayloads(codes[i..]) == ([], Fail(Link.TriStatePayload(codes[i]).error))
    ensures Link.TriStatePayload(codes[i]).Success? ==>
      PassPayloads(codes[i..]) == ([Link.TriStatePayload(codes[i]).value] + PassPayloads(codes[i + 1..]).0,
                                   PassPayloads(codes[i + 1..]).1)
  {
    assert codes[i..][0] == codes[i] && codes[i..][1..] == codes[i + 1..];
  }

  /** What has been sent after the first `i` codes of a pass, followed by
      what the rest of the pass sends, is what the whole pass sends. */
  ghost predicate PassSoFar(start: seq<seq<Byte>>, sent: seq<seq<Byte>>, codes: seq<string>, i: nat)
    requires i <= |codes|
  {
    && sent + PassPayloads(codes[i..]).0 == start + PassPayloads(codes).0
    && PassPayloads(codes[i..]).1 == PassPayloads(codes).1
  }

  lemma PassAdvance(start: seq<seq<Byte>>, sent: seq<seq<Byte>>, codes: seq<string>, i: nat)
    requires i < |codes| && Link.TriStatePayload(codes[i]).Success?
    requires PassSoFar(start, sent, codes, i)
    ensures PassSoFar(start, sent + [Link.TriStatePayload(codes[i]).value], codes, i + 1)
  {
    PassPayloadsFrom(codes, i);
  }

  lemma PassStop(start: seq<seq<Byte>>, sent: seq<seq<Byte>>, codes: seq<string>, i: nat)
    requires i < |codes| && Link.TriStatePayload(codes[i]).Failure?
    requires PassSoFar(start, sent, codes, i)
    ensures sent == start + PassPayloads(codes).0
    ensures PassPayloads(codes).1 == Fail(Link.TriStatePayload(codes[i]).error)
  {
    PassPayloadsFrom(codes, i);
    assert sent + [] == sent;
  }

  lemma PassEnd(start: seq<seq<Byte>>, sent: seq<seq<Byte>>, codes: seq<string>)
    requires PassSoFar(start, sent, codes, |codes|)
    ensures sent == start + PassPayloads(codes).0 && PassPayloads(codes).1 == Pass
  {
    assert codes[|codes|..] == [];
    assert sent + [] == sent;
  }

  /** One pass of the `for code in self.args.aggressive` loop: once started,
      a pass runs to its end unless a send raises. */
  method AggressivePass(a: Link.Arduino, codes: seq<string>) returns (outcome: Outcome<Link.SendError>)
    requires a.Valid()
    modifies a
    ensures a.Valid()
    ensures outcome == PassPayloads(codes).1
    ensures a.payloads == old(a.payloads) + PassPayloads(codes).0
    ensures a.written == old(a.written) + Link.FramesOf(PassPayloads(codes).0)
    ensures codes != [] && outcome.Pass? ==> a.connected
  {
    ghost var start := a.payloads;
    outcome := Pass;
    for i := 0 to |codes|
      invariant a.Valid() && outcome == Pass
      invariant PassSoFar(start, a.payloads, codes, i)
      invariant i > 0 ==> a.connected
    {
      ghost var before := a.payloads;
      outcome := a.SendTriState(codes[i]);
      if outcome.Fail? {
        PassStop(start, before, codes, i);
        Link.FramesOfAppend(start, PassPayloads(codes).0);
        return;
      }
      PassAdvance(start, before, codes, i);
    }
    PassEnd(start, a.payloads, codes);
    Link.FramesOfAppend(start, PassPayloads(codes).0);
  }

  /** Which blocker `execute` runs. */
  datatype Mode = Aggressive(codes: seq<string>) | Reactive(pairs: seq<(string, string)>) | Idle

  /** `execute`: the aggressive blocker when `--aggressive` was given (even
      with `--reactive` as well), the reactive one when only `--reactive`
      was given, and no connection at all when neither was. */
  function ChooseMode(aggressive: Option<seq<string>>, reactive: Option<seq<(string, string)>>): (mode: Mode)
    ensures mode.Idle? <==> aggressive.None? && reactive.None?
    ensures mode.Aggressive? ==> aggressive == Some(mode.codes)
    ensures mode.Reactive? ==> aggressive.None? && reactive == Some(mode.pairs)
  {
    if aggressive.Some? then Aggressive(aggressive.value)
    else if reactive.Some? then Reactive(reactive.value)
    else Idle
  }
}
