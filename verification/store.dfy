/**
  The config store behind `/configs`, `/configs/<name>` and
  `/configs/<config_name>/macros/<name>`: a list of configs and the
  request handlers that read and change it. Each request is one atomic
  step from the list before to a reply holding the status, the list after
  and, when the handler rewrote the backing file, the content written.
 */
module Store {
  import opened Wrappers
  import opened Tokens
  import opened KeyGrammar
  import opened Configs
  import opened Sequencer
  import opened Persistence
  import opened Requests

  /** The server's fixed parameters: the key-code table and the key. */
  datatype Server = Server(codes: KeyCodes, authKey: string)

  datatype Reply = Reply(status: Status, configs: seq<Config>, written: Option<seq<Config>>)

  /** `filter(p, s).pop()`: the position of the last element satisfying
      `p`, if any. */
  function LastWhere<T>(s: seq<T>, p: T -> bool): (r: Option<nat>)
    ensures r.None? <==> forall i :: 0 <= i < |s| ==> !p(s[i])
    ensures r.Some? ==> r.value < |s| && p(s[r.value]) && forall i :: r.value < i < |s| ==> !p(s[i])
  {
    if s == [] then None
    else if p(s[|s| - 1]) then Some(|s| - 1)
    else LastWhere(s[..|s| - 1], p)
  }

  function ConfigNamed(cs: seq<Config>, name: string): Option<nat> {
    LastWhere(cs, (c: Config) => c.name == name)
  }

  function MacroNamed(ms: seq<Macro>, name: string): Option<nat> {
    LastWhere(ms, (m: Macro) => m.name == name)
  }

  /** Position of the first element equal to `x`. */
  function IndexOf<T(==)>(s: seq<T>, x: T): (i: nat)
    requires x in s
    ensures i < |s| && s[i] == x && x !in s[..i]
  {
    if s[0] == x then 0
    else
      var i := 1 + IndexOf(s[1..], x);
      assert s[..i] == [s[0]] + s[1..][..i - 1];
      i
  }

  /** `list.remove(x)`: drop the first element equal to `x`. */
  function RemoveFirst<T(==)>(s: seq<T>, x: T): (r: seq<T>)
    requires x in s
    ensures |r| == |s| - 1
    ensures multiset(r) == multiset(s) - multiset{x}
    ensures exists i :: 0 <= i < |s| && s[i] == x && x !in s[..i] && r == s[..i] + s[i + 1..]
  {
    var i := IndexOf(s, x);
    assert s == s[..i] + [x] + s[i + 1..];
    s[..i] + s[i + 1..]
  }

  /** Summary of one config in the listing: its name and macro count. */
  datatype Summary = Summary(name: string, macros: nat)

  /** GET `/configs`. */
  function ListConfigs(cs: seq<Config>): seq<Summary> {
    seq(|cs|, i requires 0 <= i < |cs| => Summary(cs[i].name, |cs[i].macros|))
  }

  /** GET `/configs/<name>`. */
  function GetConfig(cs: seq<Config>, name: string): (Status, Option<Config>) {
    match ConfigNamed(cs, name)
    case None => (NotFound, None)
    case Some(i) => (Ok, Some(cs[i]))
  }

  /** The list `after` replaces the store and the file is rewritten; a
      raising validation inside the rewrite leaves the list changed and the
      file untouched. */
  function Commit(srv: Server, after: seq<Config>, status: Status): Reply {
    match WriteConfigs(srv.codes, after)
    case None => Reply(ServerError, after, None)
    case Some(file) => Reply(status, after, Some(file))
  }

  /** POST `/configs`. */
  function CreateConfig(srv: Server, cs: seq<Config>, cred: Option<Credentials>, body: Config): Reply {
    if !Authorized(srv.authKey, cred) then Reply(Unauthorized, cs, None)
    else
      match ValidateConfig(Loaded(srv.codes), body)
      case Raise => Reply(ServerError, cs, None)
      case Reject => Reply(BadRequest, cs, None)
      case Accept =>
        if ConfigNamed(cs, body.name).Some? then Reply(Conflict, cs, None)
        else Commit(srv, cs + [body], Created)
  }

  /** PUT `/configs/<name>`: the stored entry is removed and the body
      appended, so the updated config moves to the end of the list. */
  function ReplaceConfig(srv: Server, cs: seq<Config>, cred: Option<Credentials>, name: string, body: Config): Reply {
    match ConfigNamed(cs, name)
    case None => Reply(NotFound, cs, None)
    case Some(i) =>
      if !Authorized(srv.authKey, cred) then Reply(Unauthorized, cs, None)
      else
        match ValidateConfig(Loaded(srv.codes), body)
        case Raise => Reply(ServerError, cs, None)
        case Reject => Reply(BadRequest, cs, None)
        case Accept =>
          if body.name != name && ConfigNamed(cs, body.name).Some? then Reply(Conflict, cs, None)
          else Commit(srv, RemoveFirst(cs, cs[i]) + [body], if body.name != name then Created else NoContent)
  }

  /** DELETE `/configs/<name>`. */
  function DeleteConfig(srv: Server, cs: seq<Config>, cred: Option<Credentials>, name: string): Reply {
    match ConfigNamed(cs, name)
    case None => Reply(NotFound, cs, None)
    case Some(i) =>
      if !Authorized(srv.authKey, cred) then Reply(Unauthorized, cs, None)
      else Commit(srv, RemoveFirst(cs, cs[i]), NoContent)
  }

  /** The macro the run endpoint looks up: the last config with the name,
      then the last of its macros with the name. */
  function FindMacro(cs: seq<Config>, configName: string, macroName: string): (r: Option<Macro>)
    ensures r.Some? <==>
              ConfigNamed(cs, configName).Some? && MacroNamed(cs[ConfigNamed(cs, configName).value].macros, macroName).Some?
    ensures r.Some? ==> r.value.name == macroName && exists i :: 0 <= i < |cs| && cs[i].name == configName && r.value in cs[i].macros
    ensures r.Some? ==>
              exists i, j :: 0 <= i < |cs| && cs[i].name == configName
                && (forall k :: i < k < |cs| ==> cs[k].name != configName)
                && 0 <= j < |cs[i].macros| && r.value == cs[i].macros[j]
                && (forall k :: j < k < |cs[i].macros| ==> cs[i].macros[k].name != macroName)
  {
    match ConfigNamed(cs, configName)
    case None => None
    case Some(i) =>
      match MacroNamed(cs[i].macros, macroName)
      case None => None
      case Some(j) => Some(cs[i].macros[j])
  }

  /** GET `/configs/<config_name>/macros/<name>`: the status and the key
      events sent. */
  function RunMacro(srv: Server, cs: seq<Config>, cred: Option<Credentials>, configName: string, macroName: string): (Status, seq<Event>) {
    if !Authorized(srv.authKey, cred) then (Unauthorized, [])
    else
      match FindMacro(cs, configName, macroName)
      case None => (NotFound, [])
      case Some(m) =>
        var run := RunKeys(srv.codes, Split(m.keys));
        (if run.outcome == Done then Ok else ServerError, run.trace)
  }

  // ----- properties -----

  predicate NameTaken(cs: seq<Config>, name: string) {
    exists i :: 0 <= i < |cs| && cs[i].name == name
  }

  /** In a consistent store a name sits at one position, and the first
      config equal to the one found there is that same entry. */
  lemma FoundIsFirst(codes: KeyCodes, cs: seq<Config>, name: string)
    requires Consistent(codes, cs) && ConfigNamed(cs, name).Some?
    ensures IndexOf(cs, cs[ConfigNamed(cs, name).value]) == ConfigNamed(cs, name).value
    ensures RemoveFirst(cs, cs[ConfigNamed(cs, name).value])
              == cs[..ConfigNamed(cs, name).value] + cs[ConfigNamed(cs, name).value + 1..]
  {
    var i := ConfigNamed(cs, name).value;
    var k := IndexOf(cs, cs[i]);
    assert cs[k].name == cs[i].name;
  }

  lemma ConsistentRemove(codes: KeyCodes, cs: seq<Config>, i: nat)
    requires Consistent(codes, cs) && i < |cs|
    ensures Consistent(codes, cs[..i] + cs[i + 1..])
    ensures !NameTaken(cs[..i] + cs[i + 1..], cs[i].name)
  {
    var r := cs[..i] + cs[i + 1..];
    forall j | 0 <= j < |r| ensures r[j] == cs[if j < i then j else j + 1] {
    }
  }

  lemma ConsistentAppend(codes: KeyCodes, cs: seq<Config>, c: Config)
    requires Consistent(codes, cs) && ValidConfig(codes.Keys, c) && !NameTaken(cs, c.name)
    ensures Consistent(codes, cs + [c])
  {
    var r := cs + [c];
    forall i, j | 0 <= i < j < |r| ensures r[i].name != r[j].name {
      if j == |cs| {
        assert r[i] == cs[i];
      }
    }
  }

  /** POST `/configs`: 401 is decided first, then 400 (500 when building
      the macro-name list raises), then 409 on a taken name; on any of
      these the store is unchanged and nothing is written. On a consistent
      store a valid, free body is appended, the reply is 201, the file
      receives exactly the new list, and the store stays consistent. */
  lemma CreateSpec(srv: Server, cs: seq<Config>, cred: Option<Credentials>, body: Config)
    requires Consistent(srv.codes, cs)
    ensures var r := CreateConfig(srv, cs, cred, body);
      && (r.status == Unauthorized <==> !Authorized(srv.authKey, cred))
      && (r.status in {BadRequest, ServerError} <==> Authorized(srv.authKey, cred) && !ValidConfig(srv.codes.Keys, body))
      && (r.status == ServerError ==> !AllNamed(body.macros))
      && (r.status == Conflict <==> Authorized(srv.authKey, cred) && ValidConfig(srv.codes.Keys, body) && NameTaken(cs, body.name))
      && (r.status == Created <==> Authorized(srv.authKey, cred) && ValidConfig(srv.codes.Keys, body) && !NameTaken(cs, body.name))
      && (r.status != Created ==> r.configs == cs && r.written == None)
      && (r.status == Created ==> r.configs == cs + [body] && r.written == Some(r.configs))
      && Consistent(srv.codes, r.configs)
  {
    ValidateConfigMeaning(srv.codes, body);
    if Authorized(srv.authKey, cred) && ValidConfig(srv.codes.Keys, body) && !NameTaken(cs, body.name) {
      ConsistentAppend(srv.codes, cs, body);
      WriteConsistent(srv.codes, cs + [body]);
    }
  }

  /** After a 201 create, GET of the name returns exactly the posted
      config, the listing gains its summary at the end, and posting the
      same config again is a 409 that changes nothing. */
  lemma CreateThenGet(srv: Server, cs: seq<Config>, cred: Option<Credentials>, body: Config)
    requires Consistent(srv.codes, cs)
    requires CreateConfig(srv, cs, cred, body).status == Created
    ensures var after := CreateConfig(srv, cs, cred, body).configs;
      && GetConfig(after, body.name) == (Ok, Some(body))
      && ListConfigs(after) == ListConfigs(cs) + [Summary(body.name, |body.macros|)]
      && CreateConfig(srv, after, cred, body) == Reply(Conflict, after, None)
  {
    CreateSpec(srv, cs, cred, body);
    var after := cs + [body];
    CreateSpec(srv, after, cred, body);
    assert after[|cs|].name == body.name;
  }

  /** A PUT that passes every check drops the old entry, appends the
      body, writes the new list and answers 204 or 201; the store stays
      consistent whatever the answer. */
  lemma ReplaceCommits(srv: Server, cs: seq<Config>, cred: Option<Credentials>, name: string, body: Config)
    requires Consistent(srv.codes, cs)
    ensures var r := ReplaceConfig(srv, cs, cred, name, body);
      && (NameTaken(cs, name) && Authorized(srv.authKey, cred) && ValidConfig(srv.codes.Keys, body)
          && (body.name == name || !NameTaken(cs, body.name)) ==>
            var i := ConfigNamed(cs, name).value;
            && r.status == (if body.name != name then Created else NoContent)
            && r.configs == cs[..i] + cs[i + 1..] + [body]
            && r.written == Some(r.configs))
      && Consistent(srv.codes, r.configs)
  {
    ValidateConfigMeaning(srv.codes, body);
    if NameTaken(cs, name) && Authorized(srv.authKey, cred) && ValidConfig(srv.codes.Keys, body)
       && (body.name == name || !NameTaken(cs, body.name)) {
      var i := ConfigNamed(cs, name).value;
      FoundIsFirst(srv.codes, cs, name);
      var rest := cs[..i] + cs[i + 1..];
      ConsistentRemove(srv.codes, cs, i);
      assert !NameTaken(rest, body.name) by {
        if body.name != name {
          forall j | 0 <= j < |rest| ensures rest[j].name != body.name {
            assert rest[j] == cs[if j < i then j else j + 1];
          }
        }
      }
      ConsistentAppend(srv.codes, rest, body);
      WriteConsistent(srv.codes, rest + [body]);
    }
  }

  /** The status PUT answers; every refusal changes nothing. */
  lemma ReplaceStatus(srv: Server, cs: seq<Config>, cred: Option<Credentials>, name: string, body: Config)
    requires Consistent(srv.codes, cs)
    ensures var r := ReplaceConfig(srv, cs, cred, name, body);
      && (r.status == NotFound <==> !NameTaken(cs, name))
      && (r.status == Unauthorized <==> NameTaken(cs, name) && !Authorized(srv.authKey, cred))
      && (r.status in {BadRequest, ServerError} <==>
            NameTaken(cs, name) && Authorized(srv.authKey, cred) && !ValidConfig(srv.codes.Keys, body))
      && (r.status == ServerError ==> !AllNamed(body.macros))
      && (r.status == Conflict <==>
            NameTaken(cs, name) && Authorized(srv.authKey, cred) && ValidConfig(srv.codes.Keys, body)
            && body.name != name && NameTaken(cs, body.name))
      && (r.status !in {NoContent, Created} ==> r.configs == cs && r.written == None)
      && (r.status == NoContent <==> NameTaken(cs, name) && Authorized(srv.authKey, cred) && ValidConfig(srv.codes.Keys, body) && body.name == name)
      && (r.status == Created <==>
            NameTaken(cs, name) && Authorized(srv.authKey, cred) && ValidConfig(srv.codes.Keys, body)
            && body.name != name && !NameTaken(cs, body.name))
  {
    ValidateConfigMeaning(srv.codes, body);
    ReplaceCommits(srv, cs, cred, name, body);
  }

  /** PUT `/configs/<name>`: 404 comes before 401; then 400 (or 500), then
      409 when the body renames onto another existing name; on all of these
      nothing changes. On success the old entry is removed, the body
      appended and the file rewritten; the reply is 204 when the name is
      kept and 201 on a rename; the store stays consistent. */
  lemma ReplaceSpec(srv: Server, cs: seq<Config>, cred: Option<Credentials>, name: string, body: Config)
    requires Consistent(srv.codes, cs)
    ensures var r := ReplaceConfig(srv, cs, cred, name, body);
      && (r.status == NotFound <==> !NameTaken(cs, name))
      && (r.status == Unauthorized <==> NameTaken(cs, name) && !Authorized(srv.authKey, cred))
      && (r.status in {BadRequest, ServerError} <==>
            NameTaken(cs, name) && Authorized(srv.authKey, cred) && !ValidConfig(srv.codes.Keys, body))
      && (r.status == ServerError ==> !AllNamed(body.macros))
      && (r.status == Conflict <==>
            NameTaken(cs, name) && Authorized(srv.authKey, cred) && ValidConfig(srv.codes.Keys, body)
            && body.name != name && NameTaken(cs, body.name))
      && (r.status !in {NoContent, Created} ==> r.configs == cs && r.written == None)
      && (r.status == NoContent <==> NameTaken(cs, name) && Authorized(srv.authKey, cred) && ValidConfig(srv.codes.Keys, body) && body.name == name)
      && (r.status == Created <==>
            NameTaken(cs, name) && Authorized(srv.authKey, cred) && ValidConfig(srv.codes.Keys, body)
            && body.name != name && !NameTaken(cs, body.name))
      && (r.status in {NoContent, Created} ==>
            var i := ConfigNamed(cs, name).value;
            && r.configs == cs[..i] + cs[i + 1..] + [body]
            && r.written == Some(r.configs))
      && Consistent(srv.codes, r.configs)
  {
    ReplaceStatus(srv, cs, cred, name, body);
    ReplaceCommits(srv, cs, cred, name, body);
  }

  /** An update that keeps the name keeps the store's size, and GET of
      the name returns the new body. */
  lemma ReplaceInPlace(srv: Server, cs: seq<Config>, cred: Option<Credentials>, name: string, body: Config)
    requires Consistent(srv.codes, cs)
    ensures var r := ReplaceConfig(srv, cs, cred, name, body);
      r.status == NoContent ==> |r.configs| == |cs| && GetConfig(r.configs, name) == (Ok, Some(body))
  {
    ReplaceSpec(srv, cs, cred, name, body);
    var r := ReplaceConfig(srv, cs, cred, name, body);
    if r.status == NoContent {
      var i := ConfigNamed(cs, name).value;
      assert r.configs[|cs| - 1] == body;
    }
  }

  /** After a rename the old name is 404, the new name returns the body,
      and a valid config under the old name can be created again with 201. */
  lemma ReplaceRename(srv: Server, cs: seq<Config>, cred: Option<Credentials>, name: string, body: Config, again: Config)
    requires Consistent(srv.codes, cs)
    requires ValidConfig(srv.codes.Keys, again) && again.name == name
    ensures var r := ReplaceConfig(srv, cs, cred, name, body);
      r.status == Created ==>
        && GetConfig(r.configs, name) == (NotFound, None)
        && GetConfig(r.configs, body.name) == (Ok, Some(body))
        && CreateConfig(srv, r.configs, cred, again).status == Created
  {
    ReplaceSpec(srv, cs, cred, name, body);
    var r := ReplaceConfig(srv, cs, cred, name, body);
    if r.status == Created {
      var i := ConfigNamed(cs, name).value;
      var rest := cs[..i] + cs[i + 1..];
      ConsistentRemove(srv.codes, cs, i);
      assert r.configs[|rest|] == body;
      assert !NameTaken(r.configs, name) by {
        forall j | 0 <= j < |r.configs| ensures r.configs[j].name != name {
          if j < |rest| {
            assert r.configs[j] == rest[j];
          }
        }
      }
      CreateSpec(srv, r.configs, cred, again);
    }
  }

  /** DELETE `/configs/<name>`: 404 before 401; on success exactly the
      named entry is removed, every other entry stays in order, the reply
      is 204, the file is rewritten, and afterwards GET of the name is 404
      and the listing no longer names it. */
  lemma DeleteSpec(srv: Server, cs: seq<Config>, cred: Option<Credentials>, name: string)
    requires Consistent(srv.codes, cs)
    ensures var r := DeleteConfig(srv, cs, cred, name);
      && (r.status == NotFound <==> !NameTaken(cs, name))
      && (r.status == Unauthorized <==> NameTaken(cs, name) && !Authorized(srv.authKey, cred))
      && (r.status == NoContent <==> NameTaken(cs, name) && Authorized(srv.authKey, cred))
      && (r.status != NoContent ==> r.configs == cs && r.written == None)
      && (r.status == NoContent ==>
            var i := ConfigNamed(cs, name).value;
            && cs[i].name == name
            && r.configs == cs[..i] + cs[i + 1..]
            && r.written == Some(r.configs)
            && GetConfig(r.configs, name) == (NotFound, None)
            && (forall k :: 0 <= k < |ListConfigs(r.configs)| ==> ListConfigs(r.configs)[k].name != name))
      && Consistent(srv.codes, r.configs)
  {
    var r := DeleteConfig(srv, cs, cred, name);
    if NameTaken(cs, name) && Authorized(srv.authKey, cred) {
      var i := ConfigNamed(cs, name).value;
      FoundIsFirst(srv.codes, cs, name);
      ConsistentRemove(srv.codes, cs, i);
      WriteConsistent(srv.codes, cs[..i] + cs[i + 1..]);
    }
  }

  /** Running a macro answers 401 first, then 404 when the config or the
      macro is missing; nothing is pressed on either. */
  lemma RunMacroRefused(srv: Server, cs: seq<Config>, cred: Option<Credentials>, configName: string, macroName: string)
    ensures var (status, trace) := RunMacro(srv, cs, cred, configName, macroName);
      && (status == Unauthorized <==> !Authorized(srv.authKey, cred))
      && (status == NotFound <==>
            Authorized(srv.authKey, cred)
            && (!NameTaken(cs, configName)
                || !exists j :: 0 <= j < |cs[ConfigNamed(cs, configName).value].macros|
                                && cs[ConfigNamed(cs, configName).value].macros[j].name == macroName))
      && (status in {Unauthorized, NotFound} ==> trace == [])
  {
  }

  /** Every macro the lookup finds in a consistent store is valid. */
  lemma FoundMacroValid(codes: KeyCodes, cs: seq<Config>, configName: string, macroName: string)
    requires Consistent(codes, cs) && ConfigNamed(cs, configName).Some?
    requires MacroNamed(cs[ConfigNamed(cs, configName).value].macros, macroName).Some?
    ensures FindMacro(cs, configName, macroName).Some?
    ensures ValidMacro(codes.Keys, FindMacro(cs, configName, macroName).value)
  {
    var m := FindMacro(cs, configName, macroName).value;
    var i :| 0 <= i < |cs| && cs[i].name == configName && m in cs[i].macros;
    assert ValidConfig(codes.Keys, cs[i]);
    var j :| 0 <= j < |cs[i].macros| && cs[i].macros[j] == m;
    assert ValidMacro(codes.Keys, cs[i].macros[j]);
  }

  /** On a store of valid configs with distinct names, an authorised run
      of a macro it holds answers 200 exactly when the table has a code
      for `]` or the macro has no empty group `[ ]`, and it has then
      pressed the full timeline of the macro's parsed steps. */
  lemma RunMacroSucceeds(srv: Server, cs: seq<Config>, cred: Option<Credentials>, configName: string, macroName: string)
    requires Consistent(srv.codes, cs)
    ensures var (status, trace) := RunMacro(srv, cs, cred, configName, macroName);
      var found := FindMacro(cs, configName, macroName);
      Authorized(srv.authKey, cred) && found.Some? ==>
        var toks := Split(found.value.keys);
        && WellFormed(srv.codes.Keys, toks)
        && (status == Ok <==> Close in srv.codes || NoEmptyGroup(Parse(toks)))
        && (status == Ok ==> StepsKnown(srv.codes, Parse(toks)) && trace == Timeline(srv.codes, Parse(toks)))
  {
    if Authorized(srv.authKey, cred) && FindMacro(cs, configName, macroName).Some? {
      var m := FindMacro(cs, configName, macroName).value;
      FoundMacroValid(srv.codes, cs, configName, macroName);
      ValidatedRun(srv.codes, Split(m.keys));
      ValidatedFailure(srv.codes, Split(m.keys));
    }
  }

  /** The other answer to such a run is 500, exactly when the table has no
      code for `]` and the macro holds an empty group; the events sent
      are then the full timeline of the steps before the first empty
      group, and nothing of the group. */
  lemma RunMacroFails(srv: Server, cs: seq<Config>, cred: Option<Credentials>, configName: string, macroName: string)
    requires Consistent(srv.codes, cs)
    ensures var (status, trace) := RunMacro(srv, cs, cred, configName, macroName);
      var found := FindMacro(cs, configName, macroName);
      Authorized(srv.authKey, cred) && found.Some? ==>
        var steps := Parse(Split(found.value.keys));
        && (status == ServerError <==> Close !in srv.codes && !NoEmptyGroup(steps))
        && (status == ServerError ==>
              && !StepsKnown(srv.codes, steps)
              && steps[FirstUnknown(srv.codes, steps)] == Group([])
              && NoEmptyGroup(steps[..FirstUnknown(srv.codes, steps)])
              && trace == Timeline(srv.codes, steps[..FirstUnknown(srv.codes, steps)]))
  {
    if Authorized(srv.authKey, cred) && FindMacro(cs, configName, macroName).Some? {
      var m := FindMacro(cs, configName, macroName).value;
      FoundMacroValid(srv.codes, cs, configName, macroName);
      ValidatedFailure(srv.codes, Split(m.keys));
      ValidatedFailureTrace(srv.codes, Split(m.keys));
    }
  }
}
