/**
  The store's backing file, without JSON: `write_configs` writes the list
  of stored configs that validate, and `read_configs` loads the configs of
  the file that validate. Both are the same loop over the list, in which a
  raising validation aborts the whole operation.
 */
module Persistence {
  import opened Wrappers
  import opened Tokens
  import opened KeyGrammar
  import opened Configs

  /** One step of the filter loop: the verdict `v` on config `c` in front
      of the outcome `r` for the configs after it. */
  function Prepend(v: Verdict, c: Config, r: Option<seq<Config>>): Option<seq<Config>> {
    if v == Raise then None
    else
      match r
      case None => None
      case Some(rest) => Some((if v == Accept then [c] else []) + rest)
  }

  /** Two filter outcomes in sequence: aborted if either aborted. */
  function Concat(x: Option<seq<Config>>, y: Option<seq<Config>>): Option<seq<Config>> {
    if x.Some? && y.Some? then Some(x.value + y.value) else None
  }

  /** Keep, in order, the configs the validator accepts; `None` when the
      validation of some config raises. */
  function KeepValid(table: KeyTable, cs: seq<Config>): Option<seq<Config>> {
    if cs == [] then Some([])
    else Prepend(ValidateConfig(table, cs[0]), cs[0], KeepValid(table, cs[1..]))
  }

  /** The content `write_configs` puts in the file for the list `cs`. */
  function WriteConfigs(codes: KeyCodes, cs: seq<Config>): Option<seq<Config>> {
    KeepValid(Loaded(codes), cs)
  }

  /** `read_configs` on a file holding `disk`, with the key-code table in
      the state `table`. */
  function ReadConfigs(table: KeyTable, disk: seq<Config>): Option<seq<Config>> {
    KeepValid(table, disk)
  }

  /** The filter aborts exactly when some validation raises; otherwise it
      keeps exactly the configs that validate, never more than it was
      given. */
  lemma {:induction false} KeepValidMeaning(codes: KeyCodes, cs: seq<Config>)
    ensures KeepValid(Loaded(codes), cs).None? <==>
              exists i :: 0 <= i < |cs| && ValidateConfig(Loaded(codes), cs[i]) == Raise
    ensures KeepValid(Loaded(codes), cs).Some? ==>
              && |KeepValid(Loaded(codes), cs).value| <= |cs|
              && forall c :: c in KeepValid(Loaded(codes), cs).value <==> c in cs && ValidConfig(codes.Keys, c)
    decreases |cs|
  {
    if cs != [] {
      KeepValidMeaning(codes, cs[1..]);
      ValidateConfigMeaning(codes, cs[0]);
      if exists i :: 0 <= i < |cs[1..]| && ValidateConfig(Loaded(codes), cs[1..][i]) == Raise {
        var i :| 0 <= i < |cs[1..]| && ValidateConfig(Loaded(codes), cs[1..][i]) == Raise;
        assert cs[1..][i] == cs[i + 1];
      }
      if exists i :: 0 <= i < |cs| && ValidateConfig(Loaded(codes), cs[i]) == Raise {
        var i :| 0 <= i < |cs| && ValidateConfig(Loaded(codes), cs[i]) == Raise;
        if i > 0 {
          assert cs[1..][i - 1] == cs[i];
        }
      }
      assert forall c :: c in cs <==> c == cs[0] || c in cs[1..];
    }
  }

  /** A single config: kept when it validates, dropped when it does not,
      and the filter aborts when its validation raises. */
  lemma KeepValidSingle(table: KeyTable, c: Config)
    ensures ValidateConfig(table, c) == Accept ==> KeepValid(table, [c]) == Some([c])
    ensures ValidateConfig(table, c) == Reject ==> KeepValid(table, [c]) == Some([])
    ensures ValidateConfig(table, c) == Raise ==> KeepValid(table, [c]) == None
  {
    assert [c][1..] == [];
    assert KeepValid(table, [c][1..]) == Some([]);
    var none: seq<Config> := [];
    assert [c] + none == [c] && none + none == none;
  }

  lemma PrependConcat(v: Verdict, c: Config, x: Option<seq<Config>>, y: Option<seq<Config>>)
    ensures Prepend(v, c, Concat(x, y)) == Concat(Prepend(v, c, x), y)
  {
    if v != Raise && x.Some? && y.Some? {
      var head: seq<Config> := if v == Accept then [c] else [];
      assert head + (x.value + y.value) == (head + x.value) + y.value;
    }
  }

  /** The filter works element by element, in list order: filtering a
      concatenation is filtering each part and concatenating the results,
      and it aborts when either part does. With `KeepValidSingle` this
      fixes the order and the multiplicity of the kept configs. */
  lemma {:induction false} KeepValidAppend(table: KeyTable, a: seq<Config>, b: seq<Config>)
    ensures KeepValid(table, a + b) == Concat(KeepValid(table, a), KeepValid(table, b))
    decreases |a|
  {
    if a == [] {
      assert a + b == b;
      if KeepValid(table, b).Some? {
        var none: seq<Config> := [];
        assert none + KeepValid(table, b).value == KeepValid(table, b).value;
      }
    } else {
      var c := a + b;
      assert c[0] == a[0] && c[1..] == a[1..] + b;
      KeepValidAppend(table, a[1..], b);
      PrependConcat(ValidateConfig(table, a[0]), a[0], KeepValid(table, a[1..]), KeepValid(table, b));
    }
  }

  /** A consistent store is written out whole. */
  lemma {:induction false} WriteConsistent(codes: KeyCodes, cs: seq<Config>)
    requires Consistent(codes, cs)
    ensures WriteConfigs(codes, cs) == Some(cs)
    decreases |cs|
  {
    if cs != [] {
      ValidateConfigMeaning(codes, cs[0]);
      assert Consistent(codes, cs[1..]) by {
        forall i | 0 <= i < |cs[1..]| ensures ValidConfig(codes.Keys, cs[1..][i]) {
          assert cs[1..][i] == cs[i + 1];
        }
        forall i, j | 0 <= i < j < |cs[1..]| ensures cs[1..][i].name != cs[1..][j].name {
          assert cs[1..][i] == cs[i + 1] && cs[1..][j] == cs[j + 1];
        }
      }
      WriteConsistent(codes, cs[1..]);
      assert [cs[0]] + cs[1..] == cs;
    }
  }

  /** Filtering is idempotent: what the filter keeps passes it again
      unchanged, so a file written by the server reads back as written. */
  lemma {:induction false} KeepValidIdempotent(codes: KeyCodes, cs: seq<Config>)
    requires KeepValid(Loaded(codes), cs).Some?
    ensures KeepValid(Loaded(codes), KeepValid(Loaded(codes), cs).value) == KeepValid(Loaded(codes), cs)
    decreases |cs|
  {
    if cs != [] {
      var v := ValidateConfig(Loaded(codes), cs[0]);
      KeepValidIdempotent(codes, cs[1..]);
      var rest := KeepValid(Loaded(codes), cs[1..]).value;
      if v == Accept {
        assert ([cs[0]] + rest)[1..] == rest;
      } else {
        assert [] + rest == rest;
      }
    }
  }

  // ----- reading the file back when the process starts -----

  /** Some macro of `c` has at least one key token. */
  predicate HasKeys(c: Config) {
    exists i :: 0 <= i < |c.macros| && Split(c.macros[i].keys) != []
  }

  /** The file as the module actually loads it: `read_configs()` runs at
      server.py:126, before `key_codes` is bound at server.py:138, so the
      table is `Unloaded` while the stored configs are validated. */
  function ReadAtImport(disk: seq<Config>): Option<seq<Config>> {
    ReadConfigs(Unloaded, disk)
  }

  /** The file loaded once the key-code table is bound, as the validator
      requires. */
  function ReadAtStartup(codes: KeyCodes, disk: seq<Config>): Option<seq<Config>> {
    ReadConfigs(Loaded(codes), disk)
  }

  lemma {:induction false} UnloadedRaisesFrom(codes: KeyCodes, c: Config, k: nat, i: nat)
    requires ValidConfig(codes.Keys, c)
    requires k <= i < |c.macros| && Split(c.macros[i].keys) != []
    ensures CheckMacros(Unloaded, c.macros, k) == Raise
    decreases i - k
  {
    var ms := c.macros;
    UniqueIffCounts(ms);
    assert ValidMacro(codes.Keys, ms[k]);
    if Split(ms[k].keys) == [] {
      UnloadedRaisesFrom(codes, c, k + 1, i);
    }
  }

  /** Validating, with the table unbound, a valid config that names any
      key raises. */
  lemma UnloadedRaises(codes: KeyCodes, c: Config)
    requires ValidConfig(codes.Keys, c) && HasKeys(c)
    ensures ValidateConfig(Unloaded, c) == Raise
  {
    var i :| 0 <= i < |c.macros| && Split(c.macros[i].keys) != [];
    UnloadedRaisesFrom(codes, c, 0, i);
  }

  lemma {:induction false} KeepValidRaises(table: KeyTable, cs: seq<Config>, i: nat)
    requires i < |cs| && ValidateConfig(table, cs[i]) == Raise
    ensures KeepValid(table, cs) == None
    decreases i
  {
    if i > 0 {
      KeepValidRaises(table, cs[1..], i - 1);
    }
  }

  /** As written: once the store holds a config that names any key, the
      file the server writes for it cannot be loaded at the next start. */
  lemma StoreLostOnRestart(codes: KeyCodes, cs: seq<Config>, i: nat)
    requires Consistent(codes, cs) && i < |cs| && HasKeys(cs[i])
    ensures WriteConfigs(codes, cs) == Some(cs)
    ensures ReadAtImport(WriteConfigs(codes, cs).value) == None
  {
    WriteConsistent(codes, cs);
    UnloadedRaises(codes, cs[i]);
    KeepValidRaises(Unloaded, cs, i);
  }

  /** The store `[{"name": "demo", "macros": [{"name": "m", "keys": "A"}]}]`
      with `A` a known key is written whole and cannot be read back at
      import. */
  lemma ImportOrderCounterexample()
    ensures var codes := map["A" := 65];
      var demo := Config(ConfigFields, "demo", [Macro(MacroFields, "m", "A")]);
      WriteConfigs(codes, [demo]) == Some([demo]) && ReadAtImport([demo]) == None
  {
    var codes := map["A" := 65];
    var demo := Config(ConfigFields, "demo", [Macro(MacroFields, "m", "A")]);
    assert IsToken("A");
    SplitToken("A");
    assert WellFormed(codes.Keys, ["A"]) by {
      assert Brackets(["A"]) == [];
    }
    assert ValidMacro(codes.Keys, demo.macros[0]);
    assert Consistent(codes, [demo]);
    StoreLostOnRestart(codes, [demo], 0);
  }

  /** Corrected: with the table bound first, a consistent store survives a
      restart: what was written reads back as the same list. */
  lemma RestartRoundTrip(codes: KeyCodes, cs: seq<Config>)
    requires Consistent(codes, cs)
    ensures WriteConfigs(codes, cs) == Some(cs)
    ensures ReadAtStartup(codes, WriteConfigs(codes, cs).value) == Some(cs)
  {
    WriteConsistent(codes, cs);
    KeepValidIdempotent(codes, cs);
  }
}
