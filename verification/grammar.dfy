/**
  The bracket-combo grammar of a macro's token list: every token is a known
  key symbol or one of the two reserved tokens `[` and `]`; a `[ ... ]`
  group may not nest, a `]` must close an open group, and the list must not
  end inside a group.

  `CheckKeys` is the single-pass check of the validator, state for state;
  `WellFormed` is an independent, declarative description of the same
  language (the bracket tokens, read on their own, form `([ ])*`); and
  `Parse` cuts a well-formed list into the steps the sequencer presses.
 */
module KeyGrammar {

  /** The key-code table: symbol to virtual-key code. */
  type KeyCodes = map<string, int>

  const Open: string := "["
  const Close: string := "]"

  predicate IsBracket(k: string) {
    k == Open || k == Close
  }

  /** The key-code table as seen by the validator: `Unloaded` is the state
      of the process before the table has been bound, in which consulting
      it raises. */
  datatype KeyTable = Loaded(codes: KeyCodes) | Unloaded

  /** What a validation call does: return True, return False, or raise. */
  datatype Verdict = Accept | Reject | Raise

  /** The token loop of the validator from a given state: `combo` is the
      pending group's members, `open` whether a group is open. */
  function CheckKeys(table: KeyTable, toks: seq<string>, combo: seq<string>, open: bool): Verdict
    decreases |toks|
  {
    if toks == [] then
      if open || combo != [] then Reject else Accept
    else
      var k := toks[0];
      if table.Unloaded? then Raise
      else if k !in table.codes && !IsBracket(k) then Reject
      else if k == Open then
        if open then Reject else CheckKeys(table, toks[1..], combo, true)
      else if k == Close && !open then Reject
      else if k != Close && open then CheckKeys(table, toks[1..], combo + [k], true)
      else
        // a closing bracket, or a key outside any group: the pending group is cleared
        CheckKeys(table, toks[1..], [], false)
  }

  /** The validator's verdict on a whole token list, with the table loaded. */
  predicate KeysAccepted(codes: KeyCodes, toks: seq<string>) {
    CheckKeys(Loaded(codes), toks, [], false) == Accept
  }

  /** The bracket tokens of `toks`, in order. */
  function Brackets(toks: seq<string>): seq<string> {
    if toks == [] then []
    else (if IsBracket(toks[0]) then [toks[0]] else []) + Brackets(toks[1..])
  }

  /** The non-bracket tokens of `toks`, in order. */
  function NonBrackets(toks: seq<string>): seq<string> {
    if toks == [] then []
    else (if IsBracket(toks[0]) then [] else [toks[0]]) + NonBrackets(toks[1..])
  }

  /** `bs` belongs to the regular language `([ ])*`. */
  predicate Alternating(bs: seq<string>)
    decreases |bs|
  {
    bs == [] || (|bs| >= 2 && bs[0] == Open && bs[1] == Close && Alternating(bs[2..]))
  }

  /** `bs` belongs to `] ([ ])*`: what must follow once a group is open. */
  predicate Closes(bs: seq<string>) {
    |bs| >= 1 && bs[0] == Close && Alternating(bs[1..])
  }

  /** Every token is a known key or a bracket. */
  predicate Vocabulary(known: set<string>, toks: seq<string>) {
    forall i :: 0 <= i < |toks| ==> toks[i] in known || IsBracket(toks[i])
  }

  predicate WellFormed(known: set<string>, toks: seq<string>) {
    Vocabulary(known, toks) && Alternating(Brackets(toks))
  }

  lemma AlternatingEven(bs: seq<string>)
    requires Alternating(bs)
    ensures |bs| % 2 == 0
    decreases |bs|
  {
    if bs != [] {
      AlternatingEven(bs[2..]);
    }
  }

  lemma {:induction false} BracketsAppend(a: seq<string>, b: seq<string>)
    ensures Brackets(a + b) == Brackets(a) + Brackets(b)
    decreases |a|
  {
    if a == [] {
      assert a + b == b;
    } else {
      var c := a + b;
      assert c[0] == a[0] && c[1..] == a[1..] + b;
      BracketsAppend(a[1..], b);
      if IsBracket(a[0]) {
        assert Brackets(c) == [a[0]] + Brackets(a[1..] + b);
        assert Brackets(a) == [a[0]] + Brackets(a[1..]);
      } else {
        assert Brackets(c) == [] + Brackets(a[1..] + b);
        assert Brackets(a) == [] + Brackets(a[1..]);
      }
    }
  }

  /** The loop invariant of the validator: with the table loaded it never
      raises, and from a reachable state (no pending members outside a
      group) it accepts exactly the lists whose remaining bracket tokens
      complete the language. */
  lemma {:induction false} CheckKeysMeaning(codes: KeyCodes, toks: seq<string>, combo: seq<string>, open: bool)
    requires !open ==> combo == []
    ensures CheckKeys(Loaded(codes), toks, combo, open) != Raise
    ensures CheckKeys(Loaded(codes), toks, combo, open) == Accept <==>
              Vocabulary(codes.Keys, toks) && (if open then Closes(Brackets(toks)) else Alternating(Brackets(toks)))
    decreases |toks|
  {
    if toks != [] {
      var k, rest := toks[0], toks[1..];
      assert Brackets(toks) == (if IsBracket(k) then [k] else []) + Brackets(rest);
      if !IsBracket(k) {
        assert Brackets(toks) == Brackets(rest);
      }
      assert Vocabulary(codes.Keys, toks) <==> (k in codes.Keys || IsBracket(k)) && Vocabulary(codes.Keys, rest) by {
        if (k in codes.Keys || IsBracket(k)) && Vocabulary(codes.Keys, rest) {
          forall i | 0 <= i < |toks| ensures toks[i] in codes.Keys || IsBracket(toks[i]) {
            if i > 0 { assert toks[i] == rest[i - 1]; }
          }
        }
      }
      if k == Open {
        var bs := Brackets(rest);
        if |bs| >= 1 {
          assert ([Open] + bs)[2..] == bs[1..];
        }
        CheckKeysMeaning(codes, rest, combo, true);
      } else if k == Close {
        CheckKeysMeaning(codes, rest, [], false);
      } else if open {
        CheckKeysMeaning(codes, rest, combo + [k], true);
      } else {
        CheckKeysMeaning(codes, rest, [], false);
      }
    }
  }

  /** The validator accepts a token list exactly when it is well formed. */
  lemma KeysAcceptedIff(codes: KeyCodes, toks: seq<string>)
    ensures CheckKeys(Loaded(codes), toks, [], false) != Raise
    ensures KeysAccepted(codes, toks) <==> WellFormed(codes.Keys, toks)
  {
    CheckKeysMeaning(codes, toks, [], false);
  }

  /** The pending group never decides the verdict: from a reachable state
      the result is the same with the members forgotten, so the trailing
      `open_combo or combo` test reduces to `open_combo`. */
  lemma {:induction false} PendingComboIrrelevant(table: KeyTable, toks: seq<string>, combo: seq<string>, open: bool)
    requires !open ==> combo == []
    ensures CheckKeys(table, toks, combo, open) == CheckKeys(table, toks, [], open)
    decreases |toks|
  {
    if toks != [] && table.Loaded? {
      var k := toks[0];
      if k == Open && !open {
        PendingComboIrrelevant(table, toks[1..], combo, true);
      } else if k != Close && open && (k in table.codes || IsBracket(k)) {
        PendingComboIrrelevant(table, toks[1..], combo + [k], true);
        PendingComboIrrelevant(table, toks[1..], [k], true);
        assert [] + [k] == [k];
      }
    }
  }

  /** An open bracket at the end of a well-formed list breaks it. */
  lemma TrailingOpenIllFormed(known: set<string>, toks: seq<string>)
    requires WellFormed(known, toks)
    ensures !WellFormed(known, toks + [Open])
  {
    BracketsAppend(toks, [Open]);
    AlternatingEven(Brackets(toks));
    if Alternating(Brackets(toks + [Open])) {
      AlternatingEven(Brackets(toks + [Open]));
    }
  }

  /** Position of the first bracket token of `toks`, or `|toks|`. */
  function FirstBracket(toks: seq<string>): (j: nat)
    ensures j <= |toks|
    ensures forall i :: 0 <= i < j ==> !IsBracket(toks[i])
    ensures j < |toks| ==> IsBracket(toks[j])
    decreases |toks|
  {
    if toks == [] || IsBracket(toks[0]) then 0 else 1 + FirstBracket(toks[1..])
  }

  /** Tokens appended after a bracket do not move the first bracket. */
  lemma {:induction false} FirstBracketAppend(a: seq<string>, b: seq<string>)
    requires FirstBracket(a) < |a|
    ensures FirstBracket(a + b) == FirstBracket(a)
    decreases |a|
  {
    if !IsBracket(a[0]) {
      assert (a + b)[0] == a[0] && (a + b)[1..] == a[1..] + b;
      FirstBracketAppend(a[1..], b);
    }
  }

  /** The bracket tokens of a list, split at its first bracket. */
  lemma {:induction false} BracketsAtFirst(t: seq<string>)
    ensures FirstBracket(t) == |t| ==> Brackets(t) == []
    ensures FirstBracket(t) < |t| ==> Brackets(t) == [t[FirstBracket(t)]] + Brackets(t[FirstBracket(t) + 1..])
    decreases |t|
  {
    if t != [] {
      if !IsBracket(t[0]) {
        BracketsAtFirst(t[1..]);
        assert Brackets(t) == [] + Brackets(t[1..]) == Brackets(t[1..]);
        var j' := FirstBracket(t[1..]);
        if j' < |t[1..]| {
          assert t[1..][j'] == t[j' + 1];
          assert t[1..][j' + 1..] == t[j' + 2..];
        }
      }
    }
  }

  /** The keys of a list, split at its first bracket. */
  lemma {:induction false} NonBracketsAtFirst(t: seq<string>)
    ensures FirstBracket(t) < |t| ==> NonBrackets(t) == t[..FirstBracket(t)] + NonBrackets(t[FirstBracket(t) + 1..])
    decreases |t|
  {
    if t != [] {
      if IsBracket(t[0]) {
        assert t[..0] == [];
      } else {
        var j' := FirstBracket(t[1..]);
        NonBracketsAtFirst(t[1..]);
        if j' < |t[1..]| {
          assert t[1..][j' + 1..] == t[j' + 2..];
          assert t[..j' + 1] == [t[0]] + t[1..][..j'];
        }
      }
    }
  }

  /** One step of a macro: a single key, or a group pressed together. */
  datatype Step = Single(key: string) | Group(members: seq<string>)

  /** Cut a list whose brackets alternate into steps, group by group. */
  function Parse(toks: seq<string>): seq<Step>
    requires Alternating(Brackets(toks))
    decreases |toks|
  {
    if toks == [] then []
    else if toks[0] == Open then
      var rest := toks[1..];
      var j := FirstBracket(rest);
      GroupEnd(toks);
      [Group(rest[..j])] + Parse(rest[j + 1..])
    else
      assert !IsBracket(toks[0]);
      assert Brackets(toks) == Brackets(toks[1..]);
      [Single(toks[0])] + Parse(toks[1..])
  }

  /** All keys named by `steps`, in order. */
  function Members(steps: seq<Step>): seq<string> {
    if steps == [] then []
    else
      (match steps[0]
       case Single(k) => [k]
       case Group(ms) => ms)
      + Members(steps[1..])
  }

  function GroupCount(steps: seq<Step>): nat {
    if steps == [] then 0
    else (if steps[0].Group? then 1 else 0) + GroupCount(steps[1..])
  }

  /** Where the group opened by the first token of `toks` closes. */
  lemma {:induction false} GroupEnd(toks: seq<string>)
    requires Alternating(Brackets(toks)) && toks != [] && toks[0] == Open
    ensures FirstBracket(toks[1..]) < |toks[1..]|
    ensures toks[1..][FirstBracket(toks[1..])] == Close
    ensures Brackets(toks[1..][FirstBracket(toks[1..]) + 1..]) == Brackets(toks)[2..]
  {
    assert Brackets(toks) == [Open] + Brackets(toks[1..]);
    BracketsAtFirst(toks[1..]);
  }

  /** The first step of a list that opens with a group. */
  lemma {:induction false} ParseOpen(toks: seq<string>)
    requires Alternating(Brackets(toks)) && toks != [] && toks[0] == Open
    ensures var rest := toks[1..]; var j := FirstBracket(rest);
      && j < |rest|
      && Alternating(Brackets(rest[j + 1..]))
      && Parse(toks) == [Group(rest[..j])] + Parse(rest[j + 1..])
  {
    GroupEnd(toks);
  }

  /** The keys of a list that opens with a group: the members, then the rest. */
  lemma {:induction false} GroupNonBrackets(toks: seq<string>)
    requires Alternating(Brackets(toks)) && toks != [] && toks[0] == Open
    ensures var rest := toks[1..]; var j := FirstBracket(rest);
      j < |rest| && NonBrackets(toks) == rest[..j] + NonBrackets(rest[j + 1..])
  {
    var rest := toks[1..];
    GroupEnd(toks);
    assert NonBrackets(toks) == [] + NonBrackets(rest) == NonBrackets(rest);
    NonBracketsAtFirst(rest);
  }

  /** The first step of a list that starts with a key. */
  lemma ParseSingle(toks: seq<string>)
    requires Alternating(Brackets(toks)) && toks != [] && toks[0] != Open
    ensures !IsBracket(toks[0])
    ensures Brackets(toks) == Brackets(toks[1..])
    ensures NonBrackets(toks) == [toks[0]] + NonBrackets(toks[1..])
    ensures Parse(toks) == [Single(toks[0])] + Parse(toks[1..])
  {
  }

  /** Parsing keeps every key in token order. */
  lemma {:induction false} ParseMembers(toks: seq<string>)
    requires Alternating(Brackets(toks))
    ensures Members(Parse(toks)) == NonBrackets(toks)
    decreases |toks|
  {
    if toks != [] {
      var steps := Parse(toks);
      if toks[0] == Open {
        ParseOpen(toks);
        GroupNonBrackets(toks);
        var rest := toks[1..];
        var tail := rest[FirstBracket(rest) + 1..];
        ParseMembers(tail);
        assert steps[1..] == Parse(tail);
      } else {
        ParseSingle(toks);
        ParseMembers(toks[1..]);
        assert steps[1..] == Parse(toks[1..]);
      }
    }
  }

  /** Parsing makes one group per bracket pair. */
  lemma {:induction false} ParseGroups(toks: seq<string>)
    requires Alternating(Brackets(toks))
    ensures 2 * GroupCount(Parse(toks)) == |Brackets(toks)|
    decreases |toks|
  {
    if toks != [] {
      var steps := Parse(toks);
      if toks[0] == Open {
        ParseOpen(toks);
        GroupEnd(toks);
        var rest := toks[1..];
        var tail := rest[FirstBracket(rest) + 1..];
        ParseGroups(tail);
        assert steps[1..] == Parse(tail);
      } else {
        ParseSingle(toks);
        ParseGroups(toks[1..]);
        assert steps[1..] == Parse(toks[1..]);
      }
    }
  }

  /** A single step is never a bracket: brackets only delimit groups. */
  lemma {:induction false} ParseSinglesAreKeys(toks: seq<string>)
    requires Alternating(Brackets(toks))
    ensures forall i :: 0 <= i < |Parse(toks)| && Parse(toks)[i].Single? ==> !IsBracket(Parse(toks)[i].key)
    decreases |toks|
  {
    if toks != [] {
      var steps := Parse(toks);
      if toks[0] == Open {
        ParseOpen(toks);
        GroupEnd(toks);
        var rest := toks[1..];
        ParseSinglesAreKeys(rest[FirstBracket(rest) + 1..]);
      } else {
        ParseSingle(toks);
        ParseSinglesAreKeys(toks[1..]);
      }
    }
  }
}
