/**
  The macro sequencer: the token loop of the macro-run endpoint together
  with `press_keys`, turned into a trace of abstract key events. A `Down`
  or `Up` carries the virtual-key code the key-code table gives the
  symbol; a `Pause` is one sleep of the fixed key duration.

  A run stops where Python would stop: at the first symbol missing from
  the table (the lookup raises, after the events before it have been
  sent), or with the trailing "unable to process" check after the loop.
 */
module Sequencer {
  import opened KeyGrammar

  datatype Event = Down(code: int) | Up(code: int) | Pause

  /** How a run ends: normally, by the trailing check on an open group, or
      by a failed lookup of `symbol` in the key-code table. */
  datatype Outcome = Done | Unprocessable | MissingKey(symbol: string)

  datatype Run = Run(trace: seq<Event>, outcome: Outcome)

  /** `prefix` was emitted, then `r` happened. */
  function Then(prefix: seq<Event>, r: Run): Run {
    Run(prefix + r.trace, r.outcome)
  }

  predicate AllKnown(codes: KeyCodes, keys: seq<string>) {
    forall i :: 0 <= i < |keys| ==> keys[i] in codes
  }

  /** Key-down events for `keys`, in order. */
  function Downs(codes: KeyCodes, keys: seq<string>): seq<Event>
    requires AllKnown(codes, keys)
  {
    seq(|keys|, i requires 0 <= i < |keys| => Down(codes[keys[i]]))
  }

  /** Key-up events for `keys`, in order. */
  function Ups(codes: KeyCodes, keys: seq<string>): seq<Event>
    requires AllKnown(codes, keys)
  {
    seq(|keys|, i requires 0 <= i < |keys| => Up(codes[keys[i]]))
  }

  /** The key-down loop of `press_keys`: it stops at the first symbol the
      table does not know, having sent the events before it. */
  function DownEach(codes: KeyCodes, keys: seq<string>): (r: Run)
    ensures r.outcome == Done || r.outcome.MissingKey?
    ensures |r.trace| <= |keys|
    ensures AllKnown(codes, keys[..|r.trace|]) && r.trace == Downs(codes, keys[..|r.trace|])
    ensures r.outcome == Done <==> AllKnown(codes, keys)
    ensures r.outcome == Done ==> |r.trace| == |keys|
    ensures r.outcome.MissingKey? ==>
              |r.trace| < |keys| && r.outcome.symbol == keys[|r.trace|] && keys[|r.trace|] !in codes
  {
    if keys == [] then Run([], Done)
    else if keys[0] !in codes then Run([], MissingKey(keys[0]))
    else
      var rest := DownEach(codes, keys[1..]);
      var r := Then([Down(codes[keys[0]])], rest);
      assert keys[..|r.trace|] == [keys[0]] + keys[1..][..|rest.trace|];
      r
  }

  /** `press_keys(keys)`: every key down in order, one pause, every key up
      in the same order. */
  function PressKeys(codes: KeyCodes, keys: seq<string>): (r: Run)
    ensures r.outcome == Done <==> AllKnown(codes, keys)
    ensures r.outcome == Done ==> r.trace == Downs(codes, keys) + [Pause] + Ups(codes, keys)
    ensures r.outcome != Done ==>
              && r.outcome.MissingKey?
              && |r.trace| < |keys|
              && keys[|r.trace|] == r.outcome.symbol
              && r.outcome.symbol !in codes
              && AllKnown(codes, keys[..|r.trace|])
              && r.trace == Downs(codes, keys[..|r.trace|])
  {
    var downs := DownEach(codes, keys);
    if downs.outcome != Done then downs
    else
      assert keys[..|keys|] == keys;
      Run(downs.trace + [Pause] + Ups(codes, keys), Done)
  }

  /** Press `keys` as one step and pause; continue with `rest` only if the
      press completed. */
  function Press(codes: KeyCodes, keys: seq<string>, rest: Run): Run {
    var p := PressKeys(codes, keys);
    if p.outcome != Done then p else Then(p.trace + [Pause], rest)
  }

  /** The token loop of the macro-run endpoint from a given state. Unlike
      the validator it has no nesting or balance checks: a `[` inside a
      group keeps the group open, and a `]` with no pending members falls
      through to the single-key branch and presses `]` itself. */
  function SequenceFrom(codes: KeyCodes, toks: seq<string>, combo: seq<string>, open: bool): Run
    decreases |toks|
  {
    if toks == [] then
      Run([], if open || combo != [] then Unprocessable else Done)
    else
      var k := toks[0];
      if k == Open then SequenceFrom(codes, toks[1..], combo, true)
      else
        var open' := if k == Close then false else open;
        if open' then SequenceFrom(codes, toks[1..], combo + [k], true)
        else Press(codes, if combo != [] then combo else [k], SequenceFrom(codes, toks[1..], [], false))
  }

  /** Running a macro whose keys split into `toks`. */
  function RunKeys(codes: KeyCodes, toks: seq<string>): Run {
    SequenceFrom(codes, toks, [], false)
  }

  // ----- the reference: parsed steps and their timeline -----

  /** The keys a step presses; an empty group presses the `]` token. */
  function StepKeys(s: Step): seq<string> {
    match s
    case Single(k) => [k]
    case Group(ms) => if ms == [] then [Close] else ms
  }

  predicate StepsKnown(codes: KeyCodes, steps: seq<Step>) {
    forall i :: 0 <= i < |steps| ==> AllKnown(codes, StepKeys(steps[i]))
  }

  /** Press the steps one after the other. */
  function Execute(codes: KeyCodes, steps: seq<Step>): Run {
    if steps == [] then Run([], Done)
    else Press(codes, StepKeys(steps[0]), Execute(codes, steps[1..]))
  }

  /** The event layout of a run of steps: for each step, all its keys
      down, a pause, all its keys up in the same order, a pause. */
  function Timeline(codes: KeyCodes, steps: seq<Step>): seq<Event>
    requires StepsKnown(codes, steps)
  {
    if steps == [] then []
    else
      var ks := StepKeys(steps[0]);
      Downs(codes, ks) + [Pause] + Ups(codes, ks) + [Pause] + Timeline(codes, steps[1..])
  }

  /** The run of a group that closes at position `FirstBracket(t)`: the
      pending members and the keys up to the `]` are pressed as one step,
      then the loop continues after the `]` with nothing pending. */
  lemma {:induction false} GroupRun(codes: KeyCodes, t: seq<string>, combo: seq<string>)
    requires FirstBracket(t) < |t| && t[FirstBracket(t)] == Close
    ensures var j := FirstBracket(t);
      SequenceFrom(codes, t, combo, true)
        == Press(codes, StepKeys(Group(combo + t[..j])), SequenceFrom(codes, t[j + 1..], [], false))
    decreases |t|
  {
    var j := FirstBracket(t);
    if j == 0 {
      assert combo + t[..0] == combo;
    } else {
      var t' := t[1..];
      GroupRun(codes, t', combo + [t[0]]);
      assert FirstBracket(t') == j - 1;
      assert (combo + [t[0]]) + t'[..j - 1] == combo + t[..j];
      assert t'[j - 1 + 1..] == t[j + 1..];
    }
  }

  /** On a list whose brackets alternate, the token loop presses exactly
      the parsed steps, in order. */
  lemma {:induction false} SequenceMatchesParse(codes: KeyCodes, toks: seq<string>)
    requires Alternating(Brackets(toks))
    ensures RunKeys(codes, toks) == Execute(codes, Parse(toks))
    decreases |toks|
  {
    if toks != [] {
      var steps := Parse(toks);
      if toks[0] == Open {
        ParseOpen(toks);
        GroupEnd(toks);
        var rest := toks[1..];
        var j := FirstBracket(rest);
        var tail := rest[j + 1..];
        GroupRun(codes, rest, []);
        assert [] + rest[..j] == rest[..j];
        SequenceMatchesParse(codes, tail);
        assert steps[1..] == Parse(tail);
      } else {
        ParseSingle(toks);
        SequenceMatchesParse(codes, toks[1..]);
        assert steps[1..] == Parse(toks[1..]);
      }
    }
  }

  /** Steps whose keys are all in the table run to completion and emit
      exactly their timeline. */
  lemma {:induction false} ExecuteKnown(codes: KeyCodes, steps: seq<Step>)
    requires StepsKnown(codes, steps)
    ensures Execute(codes, steps) == Run(Timeline(codes, steps), Done)
    decreases |steps|
  {
    if steps != [] {
      assert StepsKnown(codes, steps[1..]) by {
        forall i | 0 <= i < |steps[1..]| ensures AllKnown(codes, StepKeys(steps[1..][i])) {
          assert steps[1..][i] == steps[i + 1];
        }
      }
      ExecuteKnown(codes, steps[1..]);
      assert AllKnown(codes, StepKeys(steps[0]));
    }
  }

  /** Past a known first step, some later step is still unknown. */
  lemma UnknownInTail(codes: KeyCodes, steps: seq<Step>)
    requires !StepsKnown(codes, steps) && steps != [] && AllKnown(codes, StepKeys(steps[0]))
    ensures !StepsKnown(codes, steps[1..])
  {
    var i :| 0 <= i < |steps| && !AllKnown(codes, StepKeys(steps[i]));
    assert steps[1..][i - 1] == steps[i];
  }

  /** A known first step followed by a known run of steps is known. */
  lemma KnownPrefixCons(codes: KeyCodes, steps: seq<Step>, k: nat)
    requires k < |steps| && AllKnown(codes, StepKeys(steps[0]))
    requires StepsKnown(codes, steps[1..][..k])
    ensures StepsKnown(codes, steps[..k + 1])
  {
    var pre := steps[..k + 1];
    forall i | 0 <= i < |pre| ensures AllKnown(codes, StepKeys(pre[i])) {
      if i > 0 {
        assert pre[i] == steps[1..][..k][i - 1];
      }
    }
  }

  /** The position of the first step that presses a key the table does
      not know. */
  function FirstUnknown(codes: KeyCodes, steps: seq<Step>): (k: nat)
    requires !StepsKnown(codes, steps)
    ensures k < |steps| && !AllKnown(codes, StepKeys(steps[k]))
    ensures StepsKnown(codes, steps[..k])
    decreases |steps|
  {
    if !AllKnown(codes, StepKeys(steps[0])) then
      assert steps[..0] == [];
      0
    else
      UnknownInTail(codes, steps);
      var k' := FirstUnknown(codes, steps[1..]);
      KnownPrefixCons(codes, steps, k');
      k' + 1
  }

  lemma ThenThen(a: seq<Event>, b: seq<Event>, r: Run)
    ensures Then(a, Then(b, r)) == Then(a + b, r)
  {
    assert a + (b + r.trace) == (a + b) + r.trace;
  }

  /** The timeline of a non-empty prefix starts with its first step. */
  lemma TimelineFirst(codes: KeyCodes, steps: seq<Step>, k: nat)
    requires 0 < k <= |steps| && StepsKnown(codes, steps[..k])
    ensures StepsKnown(codes, steps[1..][..k - 1])
    ensures Timeline(codes, steps[..k])
              == PressKeys(codes, StepKeys(steps[0])).trace + [Pause] + Timeline(codes, steps[1..][..k - 1])
  {
    var pre := steps[..k];
    assert pre[0] == steps[0];
    assert pre[1..] == steps[1..][..k - 1];
    assert AllKnown(codes, StepKeys(pre[0]));
    var rest := steps[1..][..k - 1];
    forall i | 0 <= i < |rest| ensures AllKnown(codes, StepKeys(rest[i])) {
      assert rest[i] == pre[i + 1];
    }
  }

  /** Otherwise the run stops at the first step holding an unknown key:
      every earlier step was pressed, released and followed by its pause,
      and the failing step sent its key-downs up to the unknown key.
      Nothing already sent is taken back. */
  lemma {:induction false} ExecuteUnknown(codes: KeyCodes, steps: seq<Step>)
    requires !StepsKnown(codes, steps)
    ensures var k := FirstUnknown(codes, steps);
      Execute(codes, steps) == Then(Timeline(codes, steps[..k]), PressKeys(codes, StepKeys(steps[k])))
    ensures Execute(codes, steps).outcome.MissingKey?
    ensures Execute(codes, steps).outcome.symbol !in codes
    ensures Execute(codes, steps).outcome.symbol in StepKeys(steps[FirstUnknown(codes, steps)])
    decreases |steps|
  {
    var k := FirstUnknown(codes, steps);
    var last := PressKeys(codes, StepKeys(steps[k]));
    ExecuteStops(codes, steps);
    assert last.outcome.MissingKey? && last.outcome.symbol == StepKeys(steps[k])[|last.trace|];
  }

  /** The trace part of `ExecuteUnknown`. */
  lemma {:induction false} ExecuteStops(codes: KeyCodes, steps: seq<Step>)
    requires !StepsKnown(codes, steps)
    ensures var k := FirstUnknown(codes, steps);
      Execute(codes, steps) == Then(Timeline(codes, steps[..k]), PressKeys(codes, StepKeys(steps[k])))
    decreases |steps|
  {
    var k := FirstUnknown(codes, steps);
    if k == 0 {
      var p := PressKeys(codes, StepKeys(steps[0]));
      assert steps[..0] == [];
      assert Execute(codes, steps) == p;
      assert [] + p.trace == p.trace;
    } else {
      assert AllKnown(codes, StepKeys(steps[..k][0]));
      UnknownInTail(codes, steps);
      ExecuteStops(codes, steps[1..]);
      ExecuteStopsStep(codes, steps);
    }
  }

  /** The inductive step of ExecuteStops: a known first step is pressed
      whole before the rest stops. */
  lemma {:induction false} ExecuteStopsStep(codes: KeyCodes, steps: seq<Step>)
    requires !StepsKnown(codes, steps) && FirstUnknown(codes, steps) > 0
    requires !StepsKnown(codes, steps[1..])
    requires var k := FirstUnknown(codes, steps[1..]);
      Execute(codes, steps[1..]) == Then(Timeline(codes, steps[1..][..k]), PressKeys(codes, StepKeys(steps[1..][k])))
    ensures var k := FirstUnknown(codes, steps);
      Execute(codes, steps) == Then(Timeline(codes, steps[..k]), PressKeys(codes, StepKeys(steps[k])))
  {
    var k := FirstUnknown(codes, steps);
    var p := PressKeys(codes, StepKeys(steps[0]));
    var last := PressKeys(codes, StepKeys(steps[k]));
    var tail := steps[1..];
    assert AllKnown(codes, StepKeys(steps[..k][0]));
    assert p.outcome == Done;
    var head := p.trace + [Pause];
    assert Execute(codes, steps) == Then(head, Execute(codes, tail));
    TimelineFirst(codes, steps, k);
    assert FirstUnknown(codes, tail) == k - 1;
    assert tail[k - 1] == steps[k];
    var pre := Timeline(codes, tail[..k - 1]);
    ThenThen(head, pre, last);
    assert Timeline(codes, steps[..k]) == head + pre;
  }

  lemma {:induction false} StepKeysFromMembers(steps: seq<Step>, i: nat, x: string)
    requires i < |steps| && x in StepKeys(steps[i])
    ensures x in Members(steps) || (x == Close && steps[i] == Group([]))
    decreases i
  {
    if i == 0 {
      assert Members(steps) == StepKeys(steps[0]) + Members(steps[1..]) || steps[0] == Group([]);
    } else {
      StepKeysFromMembers(steps[1..], i - 1, x);
      assert steps[1..][i - 1] == steps[i];
    }
  }

  lemma {:induction false} NonBracketsAreKeys(toks: seq<string>, x: string)
    requires x in NonBrackets(toks)
    ensures x in toks && !IsBracket(x)
    decreases |toks|
  {
    if !(IsBracket(toks[0]) == false && x == toks[0]) {
      assert x in NonBrackets(toks[1..]);
      NonBracketsAreKeys(toks[1..], x);
    }
  }

  predicate NoEmptyGroup(steps: seq<Step>) {
    forall i :: 0 <= i < |steps| ==> steps[i] != Group([])
  }

  /** In a validated macro every key a step presses is in the table,
      except the `]` an empty group presses. */
  lemma ValidatedStepKeys(codes: KeyCodes, toks: seq<string>)
    requires WellFormed(codes.Keys, toks)
    ensures forall i, x :: 0 <= i < |Parse(toks)| && x in StepKeys(Parse(toks)[i]) ==>
              x in codes || (x == Close && Parse(toks)[i] == Group([]))
  {
    var steps := Parse(toks);
    ParseMembers(toks);
    forall i, x | 0 <= i < |steps| && x in StepKeys(steps[i])
      ensures x in codes || (x == Close && steps[i] == Group([]))
    {
      StepKeysFromMembers(steps, i, x);
      if x in Members(steps) {
        NonBracketsAreKeys(toks, x);
      }
    }
  }

  /** Running a validated macro: the trailing "unable to process" check
      never fires; when the table knows `]` or the macro has no empty
      group, the run completes and emits the timeline of its parsed steps;
      otherwise it stops on the lookup of `]`. */
  lemma ValidatedRun(codes: KeyCodes, toks: seq<string>)
    requires WellFormed(codes.Keys, toks)
    ensures RunKeys(codes, toks).outcome != Unprocessable
    ensures RunKeys(codes, toks).outcome == Done <==> StepsKnown(codes, Parse(toks))
    ensures StepsKnown(codes, Parse(toks)) ==> RunKeys(codes, toks).trace == Timeline(codes, Parse(toks))
    ensures RunKeys(codes, toks).outcome != Done ==> RunKeys(codes, toks).outcome == MissingKey(Close)
    ensures Close in codes || NoEmptyGroup(Parse(toks)) ==> RunKeys(codes, toks).outcome == Done
  {
    var steps := Parse(toks);
    SequenceMatchesParse(codes, toks);
    ValidatedStepKeys(codes, toks);
    if StepsKnown(codes, steps) {
      ExecuteKnown(codes, steps);
    } else {
      ExecuteUnknown(codes, steps);
    }
  }

  /** Without a code for `]`, steps whose keys are all known hold no
      empty group. */
  lemma KnownStepsNoEmptyGroup(codes: KeyCodes, steps: seq<Step>)
    requires Close !in codes && StepsKnown(codes, steps)
    ensures NoEmptyGroup(steps)
  {
    forall i | 0 <= i < |steps| ensures steps[i] != Group([]) {
      assert Close !in StepKeys(steps[i]);
    }
  }

  /** A validated macro fails exactly when the table has no `]` and the
      macro holds an empty group `[ ]`. */
  lemma ValidatedFailure(codes: KeyCodes, toks: seq<string>)
    requires WellFormed(codes.Keys, toks)
    ensures RunKeys(codes, toks).outcome != Done <==> !StepsKnown(codes, Parse(toks))
    ensures !StepsKnown(codes, Parse(toks)) <==> Close !in codes && !NoEmptyGroup(Parse(toks))
  {
    ValidatedRun(codes, toks);
    if Close !in codes && StepsKnown(codes, Parse(toks)) {
      KnownStepsNoEmptyGroup(codes, Parse(toks));
    }
  }

  /** A failing validated macro stops at its first empty group, having
      sent the full timeline of the steps before it and nothing of the
      group itself. */
  lemma ValidatedFailureTrace(codes: KeyCodes, toks: seq<string>)
    requires WellFormed(codes.Keys, toks)
    ensures !StepsKnown(codes, Parse(toks)) ==>
              var steps := Parse(toks);
              var k := FirstUnknown(codes, steps);
              && steps[k] == Group([])
              && NoEmptyGroup(steps[..k])
              && RunKeys(codes, toks).trace == Timeline(codes, steps[..k])
  {
    var steps := Parse(toks);
    if !StepsKnown(codes, steps) {
      var k := FirstUnknown(codes, steps);
      SequenceMatchesParse(codes, toks);
      ExecuteUnknown(codes, steps);
      ValidatedStepKeys(codes, toks);
      var x := Execute(codes, steps).outcome.symbol;
      assert x in StepKeys(steps[k]) && x !in codes;
      assert steps[k] == Group([]) && x == Close;
      var last := PressKeys(codes, [Close]);
      assert last.trace == [];
      assert Timeline(codes, steps[..k]) + [] == Timeline(codes, steps[..k]);
      KnownStepsNoEmptyGroup(codes, steps[..k]);
    }
  }

  // ----- token lists the validator rejects -----

  /** Press the steps one after the other, then continue with `last`. */
  function ExecuteThen(codes: KeyCodes, steps: seq<Step>, last: Run): Run {
    if steps == [] then last
    else Press(codes, StepKeys(steps[0]), ExecuteThen(codes, steps[1..], last))
  }

  /** Known steps emit their timeline before whatever follows. */
  lemma {:induction false} ExecuteThenKnown(codes: KeyCodes, steps: seq<Step>, last: Run)
    requires StepsKnown(codes, steps)
    ensures ExecuteThen(codes, steps, last) == Then(Timeline(codes, steps), last)
    decreases |steps|
  {
    if steps != [] {
      var ks := StepKeys(steps[0]);
      assert AllKnown(codes, ks);
      assert StepsKnown(codes, steps[1..]) by {
        forall i | 0 <= i < |steps[1..]| ensures AllKnown(codes, StepKeys(steps[1..][i])) {
          assert steps[1..][i] == steps[i + 1];
        }
      }
      ExecuteThenKnown(codes, steps[1..], last);
      var head := Downs(codes, ks) + [Pause] + Ups(codes, ks) + [Pause];
      ThenThen(head, Timeline(codes, steps[1..]), last);
    }
  }

  /** An opening `[` starts a group with nothing collected. */
  lemma RunKeysOpen(codes: KeyCodes, toks: seq<string>)
    requires toks != [] && toks[0] == Open
    ensures RunKeys(codes, toks) == SequenceFrom(codes, toks[1..], [], true)
  {
  }

  /** After a `[`, the keys of `r` up to its first bracket, a `]`, are
      pressed whole as one group, and the loop resumes after the `]` with
      nothing collected, whatever follows `r`. */
  lemma {:induction false} GroupThenRest(codes: KeyCodes, r: seq<string>, rest: seq<string>)
    requires FirstBracket(r) < |r| && r[FirstBracket(r)] == Close
    ensures var j := FirstBracket(r);
      RunKeys(codes, [Open] + r + rest) == Press(codes, StepKeys(Group(r[..j])), RunKeys(codes, r[j + 1..] + rest))
  {
    var all := [Open] + r + rest;
    var t := r + rest;
    assert all[0] == Open && all[1..] == t;
    RunKeysOpen(codes, all);
    var j := FirstBracket(r);
    FirstBracketAppend(r, rest);
    assert t[j] == r[j] && t[..j] == r[..j] && t[j + 1..] == r[j + 1..] + rest;
    GroupRun(codes, t, []);
    assert [] + r[..j] == r[..j];
  }

  /** The reference executor presses the first step, then the others. */
  lemma ExecuteThenCons(codes: KeyCodes, s: Step, steps: seq<Step>, last: Run)
    ensures ExecuteThen(codes, [s] + steps, last) == Press(codes, StepKeys(s), ExecuteThen(codes, steps, last))
  {
    assert ([s] + steps)[0] == s && ([s] + steps)[1..] == steps;
  }

  /** Outside a group, a key that is not a bracket is pressed on its own. */
  lemma RunKeysSingle(codes: KeyCodes, toks: seq<string>)
    requires toks != [] && !IsBracket(toks[0])
    ensures RunKeys(codes, toks) == Press(codes, [toks[0]], RunKeys(codes, toks[1..]))
  {
  }

  /** A non-empty prefix is its head followed by its tail. */
  lemma ConsAppend(pre: seq<string>, rest: seq<string>)
    requires pre != []
    ensures pre + rest == [pre[0]] + pre[1..] + rest
  {
    assert pre == [pre[0]] + pre[1..];
  }

  /** A prefix that opens a group closes it at its first bracket, and
      the tokens after that `]` still have alternating brackets. */
  lemma OpenGroupBounds(pre: seq<string>)
    requires Alternating(Brackets(pre)) && pre != [] && pre[0] == Open
    ensures var r := pre[1..]; var j := FirstBracket(r);
      j < |r| && r[j] == Close && Alternating(Brackets(r[j + 1..]))
  {
    GroupEnd(pre);
  }

  /** The reference executor on a prefix that opens with a group: the
      group first, then the steps parsed after its `]`. */
  lemma {:induction false} ExecuteThenOpen(codes: KeyCodes, pre: seq<string>, last: Run)
    requires Alternating(Brackets(pre)) && pre != [] && pre[0] == Open
    requires var r := pre[1..]; var j := FirstBracket(r); j < |r| && Alternating(Brackets(r[j + 1..]))
    ensures var r := pre[1..]; var j := FirstBracket(r);
      ExecuteThen(codes, Parse(pre), last)
        == Press(codes, StepKeys(Group(r[..j])), ExecuteThen(codes, Parse(r[j + 1..]), last))
  {
    var r := pre[1..];
    var j := FirstBracket(r);
    ParseOpen(pre);
    ExecuteThenCons(codes, Group(r[..j]), Parse(r[j + 1..]), last);
  }

  /** The inductive step of SequenceAppend for a prefix that opens a group:
      the group is pressed, then the tokens after its `]`. */
  lemma {:induction false} GroupStep(codes: KeyCodes, pre: seq<string>, rest: seq<string>)
    requires pre != [] && pre[0] == Open
    requires var r := pre[1..]; FirstBracket(r) < |r| && r[FirstBracket(r)] == Close
    ensures var r := pre[1..]; var j := FirstBracket(r);
      RunKeys(codes, pre + rest) == Press(codes, StepKeys(Group(r[..j])), RunKeys(codes, r[j + 1..] + rest))
  {
    ConsAppend(pre, rest);
    GroupThenRest(codes, pre[1..], rest);
  }

  /** The inductive step of SequenceAppend for a prefix that opens with a key. */
  lemma {:induction false} SequenceAppendSingle(codes: KeyCodes, pre: seq<string>, rest: seq<string>)
    requires Alternating(Brackets(pre)) && pre != [] && pre[0] != Open
    requires Alternating(Brackets(pre[1..]))
    requires RunKeys(codes, pre[1..] + rest) == ExecuteThen(codes, Parse(pre[1..]), RunKeys(codes, rest))
    ensures RunKeys(codes, pre + rest) == ExecuteThen(codes, Parse(pre), RunKeys(codes, rest))
  {
    ParseSingle(pre);
    var all := pre + rest;
    assert all[0] == pre[0] && all[1..] == pre[1..] + rest;
    RunKeysSingle(codes, all);
    ExecuteThenCons(codes, Single(pre[0]), Parse(pre[1..]), RunKeys(codes, rest));
  }

  /** A prefix whose brackets alternate is pressed as its parsed steps,
      whatever tokens follow it. */
  lemma {:induction false} SequenceAppend(codes: KeyCodes, pre: seq<string>, rest: seq<string>)
    requires Alternating(Brackets(pre))
    ensures RunKeys(codes, pre + rest) == ExecuteThen(codes, Parse(pre), RunKeys(codes, rest))
    decreases |pre|
  {
    if pre == [] {
      assert pre + rest == rest;
    } else if pre[0] == Open {
      var r := pre[1..];
      OpenGroupBounds(pre);
      ExecuteThenOpen(codes, pre, RunKeys(codes, rest));
      SequenceAppend(codes, r[FirstBracket(r) + 1..], rest);
      GroupStep(codes, pre, rest);
    } else {
      ParseSingle(pre);
      SequenceAppend(codes, pre[1..], rest);
      SequenceAppendSingle(codes, pre, rest);
    }
  }

  /** Inside an open group with no bracket left, the loop only collects
      keys and ends on the trailing check. */
  lemma {:induction false} OpenToEnd(codes: KeyCodes, ks: seq<string>, combo: seq<string>)
    requires forall i :: 0 <= i < |ks| ==> !IsBracket(ks[i])
    ensures SequenceFrom(codes, ks, combo, true) == Run([], Unprocessable)
    decreases |ks|
  {
    if ks != [] {
      OpenToEnd(codes, ks[1..], combo + [ks[0]]);
    }
  }

  /** Once some step has an unknown key, what would follow the steps is
      never reached: the run is the plain execution of the steps. */
  lemma {:induction false} ExecuteThenUnknown(codes: KeyCodes, steps: seq<Step>, last: Run)
    requires !StepsKnown(codes, steps)
    ensures ExecuteThen(codes, steps, last) == Execute(codes, steps)
    decreases |steps|
  {
    if AllKnown(codes, StepKeys(steps[0])) {
      UnknownInTail(codes, steps);
      ExecuteThenUnknown(codes, steps[1..], last);
    }
  }

  /** A macro that ends in an unclosed group (a list the validator
      rejects): the steps before the `[` are executed as parsed, the keys
      after it are never pressed, and if the earlier steps all completed
      the run ends with the "unable to process" response. */
  lemma {:induction false} UnclosedGroup(codes: KeyCodes, pre: seq<string>, ks: seq<string>)
    requires Alternating(Brackets(pre))
    requires forall i :: 0 <= i < |ks| ==> !IsBracket(ks[i])
    ensures RunKeys(codes, pre + [Open] + ks) == ExecuteThen(codes, Parse(pre), Run([], Unprocessable))
    ensures StepsKnown(codes, Parse(pre)) ==>
              RunKeys(codes, pre + [Open] + ks) == Run(Timeline(codes, Parse(pre)), Unprocessable)
  {
    assert pre + [Open] + ks == pre + ([Open] + ks);
    SequenceAppend(codes, pre, [Open] + ks);
    assert ([Open] + ks)[0] == Open && ([Open] + ks)[1..] == ks;
    OpenToEnd(codes, ks, []);
    if StepsKnown(codes, Parse(pre)) {
      ExecuteThenKnown(codes, Parse(pre), Run([], Unprocessable));
      assert Timeline(codes, Parse(pre)) + [] == Timeline(codes, Parse(pre));
    }
  }

  /** The same list when a step before the `[` has an unknown key: the
      failed lookup ends the run first, after the timeline of the steps
      before that one and the key-downs of its known prefix, so the
      trailing check is never reached. */
  lemma {:induction false} UnclosedGroupUnknown(codes: KeyCodes, pre: seq<string>, ks: seq<string>)
    requires Alternating(Brackets(pre)) && !StepsKnown(codes, Parse(pre))
    requires forall i :: 0 <= i < |ks| ==> !IsBracket(ks[i])
    ensures var steps := Parse(pre); var k := FirstUnknown(codes, steps);
      && RunKeys(codes, pre + [Open] + ks) == Then(Timeline(codes, steps[..k]), PressKeys(codes, StepKeys(steps[k])))
      && RunKeys(codes, pre + [Open] + ks).outcome.MissingKey?
  {
    UnclosedGroup(codes, pre, ks);
    ExecuteThenUnknown(codes, Parse(pre), Run([], Unprocessable));
    ExecuteUnknown(codes, Parse(pre));
  }

  /** The number of pauses in a trace. */
  function Pauses(evs: seq<Event>): nat {
    if evs == [] then 0 else (if evs[0] == Pause then 1 else 0) + Pauses(evs[1..])
  }

  lemma PausesAppend(a: seq<Event>, b: seq<Event>)
    ensures Pauses(a + b) == Pauses(a) + Pauses(b)
  {
    if a == [] {
      assert a + b == b;
    } else {
      assert (a + b)[0] == a[0];
      assert (a + b)[1..] == a[1..] + b;
      PausesAppend(a[1..], b);
    }
  }

  lemma NoPauses(evs: seq<Event>)
    requires forall i :: 0 <= i < |evs| ==> evs[i] != Pause
    ensures Pauses(evs) == 0
  {
    if evs != [] {
      NoPauses(evs[1..]);
    }
  }

  /** Every step, single key or group, takes exactly two key durations:
      a timeline of n steps holds 2n pauses. */
  lemma {:induction false} TimelinePauses(codes: KeyCodes, steps: seq<Step>)
    requires StepsKnown(codes, steps)
    ensures Pauses(Timeline(codes, steps)) == 2 * |steps|
    decreases |steps|
  {
    if steps != [] {
      var ks := StepKeys(steps[0]);
      assert StepsKnown(codes, steps[1..]) by {
        forall i | 0 <= i < |steps[1..]| ensures AllKnown(codes, StepKeys(steps[1..][i])) {
          assert steps[1..][i] == steps[i + 1];
        }
      }
      assert AllKnown(codes, ks);
      var d, u := Downs(codes, ks), Ups(codes, ks);
      NoPauses(d);
      NoPauses(u);
      TimelinePauses(codes, steps[1..]);
      PausesAppend(d + [Pause] + u + [Pause], Timeline(codes, steps[1..]));
      PausesAppend(d + [Pause] + u, [Pause]);
      PausesAppend(d + [Pause], u);
      PausesAppend(d, [Pause]);
    }
  }
}
