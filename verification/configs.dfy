/**
  The macro configuration and its validator (`validate_config`): first the
  schema of the config and of each macro, then the bracket grammar of each
  macro's whitespace-split keys.

  A config is a JSON object; the model keeps its key set (`fields`) next to
  the values the validator reads, so that an object with a missing or an
  extra key can be expressed.
 */
module Configs {
  import opened Tokens
  import opened KeyGrammar

  /** One macro: `{"name": ..., "keys": ...}`. */
  datatype Macro = Macro(fields: set<string>, name: string, keys: string)

  /** One config: `{"name": ..., "macros": [...]}`. */
  datatype Config = Config(fields: set<string>, name: string, macros: seq<Macro>)

  const ConfigFields: set<string> := {"name", "macros"}
  const MacroFields: set<string> := {"name", "keys"}

  /** `[x['name'] for x in macros].count(name)`. */
  function Occurrences(ms: seq<Macro>, name: string): nat {
    if ms == [] then 0
    else (if ms[0].name == name then 1 else 0) + Occurrences(ms[1..], name)
  }

  /** Every macro has a `name` key, so that the list of names can be built. */
  predicate AllNamed(ms: seq<Macro>) {
    forall i :: 0 <= i < |ms| ==> "name" in ms[i].fields
  }

  /** The loop over the macros, from position `k` on. Building the list of
      all macro names raises when some macro, checked or not, has no
      `name` key. */
  function CheckMacros(table: KeyTable, ms: seq<Macro>, k: nat): Verdict
    requires k <= |ms|
    decreases |ms| - k
  {
    if k == |ms| then Accept
    else
      var m := ms[k];
      if m.fields != MacroFields || m.name == "" || m.keys == "" then Reject
      else if !AllNamed(ms) then Raise
      else if Occurrences(ms, m.name) > 1 then Reject
      else
        match CheckKeys(table, Split(m.keys), [], false)
        case Accept => CheckMacros(table, ms, k + 1)
        case other => other
  }

  /** `validate_config`: Accept is Python's True, Reject its False. */
  function ValidateConfig(table: KeyTable, c: Config): Verdict {
    if c.fields != ConfigFields || c.name == "" || c.macros == [] then Reject
    else CheckMacros(table, c.macros, 0)
  }

  // ----- the declarative description of a valid config -----

  /** The emptiness test is on the raw `keys` string, so a whitespace-only
      value passes it and then splits into no tokens. */
  predicate ValidMacro(known: set<string>, m: Macro) {
    && m.fields == MacroFields
    && m.name != ""
    && m.keys != ""
    && WellFormed(known, Split(m.keys))
  }

  /** A macro whose keys are only whitespace passes the raw emptiness
      test, splits into no tokens, and so is valid: it presses nothing. */
  lemma BlankKeysValid(known: set<string>, m: Macro)
    requires m.fields == MacroFields && m.name != "" && m.keys != "" && Blank(m.keys)
    ensures Split(m.keys) == [] && ValidMacro(known, m)
  {
    SplitBlank(m.keys);
  }

  predicate UniqueMacroNames(ms: seq<Macro>) {
    forall i, j :: 0 <= i < j < |ms| ==> ms[i].name != ms[j].name
  }

  predicate ValidConfig(known: set<string>, c: Config) {
    && c.fields == ConfigFields
    && c.name != ""
    && |c.macros| > 0
    && (forall i :: 0 <= i < |c.macros| ==> ValidMacro(known, c.macros[i]))
    && UniqueMacroNames(c.macros)
  }

  /** A list of configs the server may hold: each validates and no two
      share a name. */
  predicate Consistent(codes: KeyCodes, cs: seq<Config>) {
    && (forall i :: 0 <= i < |cs| ==> ValidConfig(codes.Keys, cs[i]))
    && (forall i, j :: 0 <= i < j < |cs| ==> cs[i].name != cs[j].name)
  }

  lemma {:induction false} OccurrencesAtLeastOne(ms: seq<Macro>, i: nat)
    requires i < |ms|
    ensures Occurrences(ms, ms[i].name) >= 1
    decreases |ms|
  {
    if i > 0 {
      OccurrencesAtLeastOne(ms[1..], i - 1);
    }
  }

  /** A name occurs more than once exactly when two positions carry it. */
  lemma {:induction false} OccurrencesTwice(ms: seq<Macro>, i: nat)
    requires i < |ms|
    ensures Occurrences(ms, ms[i].name) > 1 <==>
              exists j :: 0 <= j < |ms| && j != i && ms[j].name == ms[i].name
    decreases |ms|
  {
    var n := ms[i].name;
    if i == 0 {
      if Occurrences(ms[1..], n) >= 1 {
        var j := OccurrenceIndex(ms[1..], n);
        assert ms[j + 1].name == n;
      }
      if exists j :: 0 <= j < |ms| && j != 0 && ms[j].name == n {
        var j :| 0 <= j < |ms| && j != 0 && ms[j].name == n;
        assert ms[1..][j - 1].name == n;
        OccurrencesAtLeastOne(ms[1..], j - 1);
      }
    } else {
      OccurrencesTwice(ms[1..], i - 1);
      assert ms[1..][i - 1] == ms[i];
      if ms[0].name == n {
        OccurrencesAtLeastOne(ms[1..], i - 1);
      }
      if exists j :: 0 <= j < |ms| && j != i && ms[j].name == n {
        var j :| 0 <= j < |ms| && j != i && ms[j].name == n;
        if j > 0 {
          assert ms[1..][j - 1].name == n;
        }
      }
    }
  }

  /** A position carrying `name`, when it occurs. */
  function OccurrenceIndex(ms: seq<Macro>, name: string): (j: nat)
    requires Occurrences(ms, name) >= 1
    ensures j < |ms| && ms[j].name == name
  {
    if ms[0].name == name then 0 else 1 + OccurrenceIndex(ms[1..], name)
  }

  lemma UniqueIffCounts(ms: seq<Macro>)
    ensures UniqueMacroNames(ms) <==> forall i :: 0 <= i < |ms| ==> Occurrences(ms, ms[i].name) <= 1
  {
    forall i | 0 <= i < |ms| {
      OccurrencesTwice(ms, i);
    }
  }

  /** With the table loaded, the macro loop raises only on a macro list in
      which some macro has no `name` key. */
  lemma {:induction false} CheckMacrosRaises(codes: KeyCodes, ms: seq<Macro>, k: nat)
    requires k <= |ms|
    ensures CheckMacros(Loaded(codes), ms, k) == Raise ==> !AllNamed(ms)
    decreases |ms| - k
  {
    if k < |ms| && AllNamed(ms) {
      KeysAcceptedIff(codes, Split(ms[k].keys));
      CheckMacrosRaises(codes, ms, k + 1);
    }
  }

  /** The loop over the macros, from position `k` on, with the table
      loaded and every earlier macro named: it accepts exactly when every
      macro from `k` on is valid and named once. */
  lemma {:induction false} CheckMacrosAccepts(codes: KeyCodes, ms: seq<Macro>, k: nat)
    requires k <= |ms|
    requires forall i :: 0 <= i < k ==> "name" in ms[i].fields
    ensures CheckMacros(Loaded(codes), ms, k) == Accept <==>
              forall i :: k <= i < |ms| ==> ValidMacro(codes.Keys, ms[i]) && Occurrences(ms, ms[i].name) <= 1
    decreases |ms| - k
  {
    if k < |ms| {
      var m := ms[k];
      var v := CheckMacros(Loaded(codes), ms, k);
      if !(m.fields == MacroFields && m.name != "" && m.keys != "") {
        assert v == Reject;
        assert !ValidMacro(codes.Keys, ms[k]);
      } else if !AllNamed(ms) {
        assert v == Raise;
        var j :| 0 <= j < |ms| && "name" !in ms[j].fields;
        assert !ValidMacro(codes.Keys, ms[j]);
        assert k <= j;
      } else if Occurrences(ms, m.name) > 1 {
        assert v == Reject;
        assert Occurrences(ms, ms[k].name) > 1;
      } else {
        KeysAcceptedIff(codes, Split(m.keys));
        if KeysAccepted(codes, Split(m.keys)) {
          CheckMacrosAccepts(codes, ms, k + 1);
          assert v == CheckMacros(Loaded(codes), ms, k + 1);
          assert ValidMacro(codes.Keys, ms[k]) && Occurrences(ms, ms[k].name) <= 1;
        } else {
          assert !ValidMacro(codes.Keys, ms[k]);
        }
      }
    }
  }

  /** The loop over the macros, from position `k` on, with the table
      loaded and every earlier macro named. */
  lemma CheckMacrosMeaning(codes: KeyCodes, ms: seq<Macro>, k: nat)
    requires k <= |ms|
    requires forall i :: 0 <= i < k ==> "name" in ms[i].fields
    ensures CheckMacros(Loaded(codes), ms, k) == Raise ==> !AllNamed(ms)
    ensures CheckMacros(Loaded(codes), ms, k) == Accept <==>
              forall i :: k <= i < |ms| ==> ValidMacro(codes.Keys, ms[i]) && Occurrences(ms, ms[i].name) <= 1
  {
    CheckMacrosRaises(codes, ms, k);
    CheckMacrosAccepts(codes, ms, k);
  }

  /** The validator accepts exactly the valid configs, and raises only on
      a macro list in which some macro has no `name` key. */
  lemma ValidateConfigMeaning(codes: KeyCodes, c: Config)
    ensures ValidateConfig(Loaded(codes), c) == Accept <==> ValidConfig(codes.Keys, c)
    ensures ValidateConfig(Loaded(codes), c) == Raise ==> !AllNamed(c.macros)
  {
    if c.fields == ConfigFields && c.name != "" && c.macros != [] {
      CheckMacrosMeaning(codes, c.macros, 0);
      UniqueIffCounts(c.macros);
    }
  }

  /** A config with `keys` of macro `i` replaced. */
  function WithKeys(c: Config, i: nat, keys: string): (r: Config)
    requires i < |c.macros|
    ensures |r.macros| == |c.macros| && r.macros[i].keys == keys
    ensures forall j :: 0 <= j < |c.macros| && j != i ==> r.macros[j] == c.macros[j]
  {
    var m := c.macros[i];
    c.(macros := c.macros[i := m.(keys := keys)])
  }

  /** Appending " [" to any macro of a valid config leaves a group open,
      and the validator rejects the result. */
  lemma TrailingOpenRejected(codes: KeyCodes, c: Config, i: nat)
    requires ValidConfig(codes.Keys, c) && i < |c.macros|
    ensures ValidateConfig(Loaded(codes), WithKeys(c, i, c.macros[i].keys + " [")) == Reject
  {
    var m := c.macros[i];
    var c' := WithKeys(c, i, m.keys + " [");
    assert IsToken("[");
    assert m.keys + " [" == m.keys + " " + "[";
    SplitAppendToken(m.keys, "[");
    TrailingOpenIllFormed(codes.Keys, Split(m.keys));
    assert !ValidMacro(codes.Keys, c'.macros[i]);
    ValidateConfigMeaning(codes, c);
    ValidateConfigMeaning(codes, c');
    assert AllNamed(c'.macros) by {
      forall j | 0 <= j < |c'.macros| ensures "name" in c'.macros[j].fields {
        assert ValidMacro(codes.Keys, c.macros[j]);
      }
    }
  }
}
