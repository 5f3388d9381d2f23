# pyRESTvk server core in Dafny

pyRESTvk is a small HTTP server that stores named *configs*. Each config is a
list of *macros*, and each macro holds a string of key names. When an
authorised client requests a macro, the server presses that macro's keys as
virtual key events. This project models the server's core, `server.py`:

- **the config validator** `validate_config`. It checks the schema and the key
  grammar: whitespace-separated tokens from the key-code table, with `[` … `]`
  marking a combination that is held together.
- **the macro sequencer** behind `/configs/<config_name>/macros/<name>`,
  together with `press_keys`. These are modelled as a trace of
  `Down(code)`/`Up(code)`/`Pause` events. The Windows calls and sleeps are
  left out.
- **the config store** behind `/configs` and `/configs/<name>`: list, get,
  create, replace and delete, each with its HTTP status and the list after
  the request.
- **the persistence filter** `write_configs`/`read_configs`. Only configs
  that pass validation reach the file or come back from it.
- **the client registry** `/auth`, and the `authorized` password check.

The modules are:

- `Tokens`: Python's `str.split()`.
- `KeyGrammar`: the key loop of the validator, plus a declarative grammar and
  a parser into steps.
- `Configs`: the validator.
- `Sequencer`: the key-press loop, plus a reference executor over parsed
  steps.
- `Persistence`: the file filter.
- `Requests`: statuses and the password check.
- `Clients`: the client registry.
- `Store`: the request handlers.

Each loop of the source has a declarative partner, and lemmas connect the
two:

- The validator's key loop matches the grammar on every token list.
- The key-press loop matches the parsed steps on every token list whose
  brackets alternate, whatever tokens follow. This covers every macro the
  validator accepts. Of the lists it rejects, only one shape is covered: a
  list whose brackets alternate up to a final `[` that is never closed.
- The file filter is characterised element by element, in list order.

Facts about the source the model relies on:

- `server.py` serves configs under `/configs` and `/configs/<name>`. A config
  is shaped `{"name", "macros": [{"name", "keys"}]}`. The client programs call
  an API that `server.py` does not implement, which is not part of this
  model: `example/main.py:60-62` posts to a `profiles` URL with
  `validate_only`, and `unit-test/unit-test.py:105` posts to `/configs` with
  `validate_only`. `server.py` ignores the parameter and stores the config
  whenever it validates.
- `register_client` deduplicates the client list on the pair (user name,
  remote address).
- Lookups use `filter(...).pop()`, which returns the last match.
  `list.remove` drops the first equal element.
- A validation that raises becomes an HTTP 500, through the catch-all error
  handler.

## Model

| member | source | states |
|---|---|---|
| Tokens.Split | server.py:79 | every token of `str.split()` is non-empty and free of whitespace (Python's Unicode whitespace set), and there are no more tokens than characters |
| Tokens.SplitAppend | server.py:79 | splitting text that is joined at a whitespace boundary gives the concatenation of the two splits |
| Tokens.SplitBlank | server.py:75-79 | a whitespace-only string splits into no tokens, although it passes the raw emptiness test on `keys` |
| Tokens.SplitJoin | server.py:79 | joining whitespace-free tokens with single spaces and splitting again returns the same tokens |
| KeyGrammar.KeysAcceptedIff | server.py:77-97 | with the key table loaded, the token loop never raises, and it accepts exactly the token lists that use only known keys and brackets and whose brackets read `[ ] [ ] …` (no nesting, no stray `]`, nothing left open) |
| KeyGrammar.CheckKeysMeaning | server.py:77-97 | the loop invariant: from any reachable state (no pending members outside a group) the loop accepts exactly when the rest is in the vocabulary and its brackets close the open group (if any) and then alternate |
| KeyGrammar.PendingComboIrrelevant | server.py:91-97 | the collected combo members never change the verdict, so the final `open_combo or combo` test is decided by `open_combo` alone |
| KeyGrammar.TrailingOpenIllFormed | server.py:82-85 | appending an opening bracket to a well-formed key list makes it ill-formed |
| KeyGrammar.ParseMembers | server.py:270-285 | the keys of the parsed steps, taken in order, are exactly the non-bracket tokens |
| KeyGrammar.ParseGroups | server.py:273-277 | the parse has one group per `[ ]` pair |
| KeyGrammar.ParseSinglesAreKeys | server.py:281-285 | a step outside a group is never a bracket |
| Configs.UniqueIffCounts | server.py:75 | the per-macro `count(name) > 1` test rejects exactly the macro lists whose names are not pairwise distinct |
| Configs.CheckMacrosMeaning | server.py:74-98 | the macro loop accepts exactly when every remaining macro has schema `{name, keys}`, a non-empty name and keys, a unique name and well-formed keys; it raises only when some macro lacks `name` |
| Configs.BlankKeysValid | server.py:75-79 | a macro whose `keys` is whitespace only passes the emptiness test, has no tokens, and is a valid macro that presses nothing |
| Configs.ValidateConfigMeaning | server.py:70-98 | `validate_config` returns True exactly for configs with schema `{name, macros}`, a non-empty name, at least one macro and every macro valid with pairwise distinct names; it raises only when some macro lacks `name` |
| Configs.TrailingOpenRejected | server.py:82-97 | appending " [" to the keys of any macro of a valid config makes `validate_config` return False |
| Sequencer.PressKeys | server.py:143-150 | with every key known, the trace is all key-downs in order, one pause, then all key-ups in the same order; otherwise the first unknown key raises, after key-downs for exactly the keys before it |
| Sequencer.SequenceMatchesParse | server.py:270-289 | on any token list whose brackets alternate, the press loop does what executing the parsed steps does: a single key is pressed alone and a group is pressed together (an empty group `[ ]` presses `]`), each followed by a pause |
| Sequencer.ExecuteKnown | server.py:281-286 | when every step's keys are in the table, execution finishes and emits the timeline |
| Sequencer.ExecuteUnknown | server.py:143-150 | when some step has an unknown key, execution stops at the first such step: every earlier step has been pressed, released and followed by its pause, then the failing step sends key-downs up to its first unknown key, which is the missing key reported |
| Sequencer.ValidatedRun | server.py:270-289 | on keys that pass validation the "Unable to Process" 500 never fires; the run succeeds exactly when every step's keys are known, and its trace is then the step timeline; the only possible failure is a lookup of `]` for an empty group, which cannot happen when `]` is in the table or no group is empty |
| Sequencer.ValidatedFailure | server.py:270-289 | a validated macro fails exactly when the table has no code for `]` and the macro holds an empty group `[ ]` |
| Sequencer.ValidatedFailureTrace | server.py:270-289 | a failing validated macro stops at its first empty group, after the full timeline of the steps before it, and sends nothing of that group |
| Sequencer.SequenceAppend | server.py:270-285 | a prefix whose brackets alternate is pressed as its parsed steps, one after the other, before whatever the tokens after it do |
| Sequencer.GroupThenRest | server.py:273-286 | a `[` collects the keys up to the next bracket, which is a `]`, presses them together as one step with its pause, and the loop then continues with the tokens after the `]` with nothing collected |
| Sequencer.UnclosedGroup | server.py:270-288 | when the tokens before a final `[` have alternating brackets and no bracket follows it, the loop executes the steps before the `[` as parsed and never presses the keys after it; if every earlier key is known, the run is their full timeline and ends with the "Unable to Process" 500 |
| Sequencer.UnclosedGroupUnknown | server.py:143-150 | in the same shape, an unknown key before the `[` ends the run with its failed lookup first: the timeline of the steps before that key's step, then the key-downs of its known prefix; the trailing check is never reached |
| Sequencer.TimelinePauses | server.py:143-150 | a successful run has two pauses per step, one inside `press_keys` and one after it |
| Persistence.KeepValidMeaning | server.py:101-123 | the filter fails only when validating some config raises; otherwise it keeps exactly the valid configs of the list and never grows it |
| Persistence.KeepValidSingle | server.py:104-106 | one config is kept when it validates and dropped when it does not, and its raising validation aborts the filter |
| Persistence.KeepValidAppend | server.py:101-123 | filtering a concatenation filters each part and concatenates the results, aborting when either part aborts; with the one-config case this fixes the order and the number of copies of the kept configs |
| Persistence.KeepValidIdempotent | server.py:101-123 | filtering the filter's output changes nothing |
| Persistence.WriteConsistent | server.py:101-110 | a store of valid, distinctly named configs is written to the file whole |
| Persistence.StoreLostOnRestart | server.py:113-138 | as written, reading the file at import time raises on any written store that holds at least one key token, because the key table is bound after the read |
| Persistence.ImportOrderCounterexample | server.py:126-138 | a config `demo` with one macro pressing `A`, where `A` is a known key, is written whole and cannot be read back at import |
| Persistence.RestartRoundTrip | server.py:101-123 | once the key table is bound before the read, a consistent store is written whole and read back unchanged |
| Requests.AuthorizedIgnoresUsername | server.py:63-67 | a request is authorised exactly when it carries credentials whose password equals the key; the user name plays no part |
| Clients.RegisterClientSpec | server.py:175-185 | `/auth` answers 401 exactly when unauthorised, and the list is then unchanged; otherwise a pair (name, address) already present leaves the list unchanged and a new pair is appended, with nothing else added; earlier entries are kept, and no pair ever occurs twice |
| Clients.RegisterClientIdempotent | server.py:182-184 | registering the same client from the same address twice has the effect of doing it once |
| Store.LastWhere | server.py:232-235 | `filter(...).pop()` finds nothing exactly when no element matches; otherwise it finds a matching element after which none matches |
| Store.RemoveFirst | server.py:241-249 | `list.remove` drops the first element equal to the argument and keeps the rest in order |
| Store.CreateSpec | server.py:212-226 | POST answers 401 before any validation, then 400 (500 when a macro lacks `name`) for an invalid body, then 409 for a name already stored, and otherwise 201; every failure leaves the store and the file untouched; a 201 appends the body, writes the whole new list, and keeps names distinct and configs valid |
| Store.CreateThenGet | server.py:212-237 | after a 201, GET of the name returns exactly the posted config, the listing gains its summary at the end, and posting it again is a 409 that changes nothing |
| Store.ReplaceSpec | server.py:229-254 | PUT answers 404 before 401, then 400 (or 500), then 409 when it renames onto another stored name; failures change nothing; success removes the old entry, appends the body and writes the list, answering 204 when the name is kept and 201 on a rename; the store stays consistent |
| Store.ReplaceStatus | server.py:229-254 | each PUT status holds exactly under its condition, checked in the source's order (404, 401, 400 or 500, 409, then 204 or 201), and every refusal leaves the store and the file as they were |
| Store.ReplaceCommits | server.py:249-254 | a PUT that passes every check removes the old entry, appends the body, writes that list and answers 201 on a rename and 204 otherwise; whatever the answer, the store stays consistent |
| Store.ReplaceInPlace | server.py:244-254 | a PUT that keeps the name answers 204 without changing the size of the store, and GET of the name then returns the new body |
| Store.ReplaceRename | server.py:244-254 | after a PUT that renames (201), the old name is 404, the new name returns the body, and a valid config under the old name can be created again with 201 |
| Store.DeleteSpec | server.py:229-243 | DELETE answers 404 before 401; success removes exactly the named entry, keeps the others in order, writes the list and answers 204; afterwards GET of the name is 404 and the listing does not name it |
| Store.FindMacro | server.py:262-269 | the run endpoint finds a macro exactly when a config with that name exists and its last such config has a macro with that name; what it finds is the last macro with the requested name in the last config with the requested name |
| Store.RunMacroRefused | server.py:257-269 | running a macro answers 401 first, then 404 when the config or the macro is missing, and presses nothing in either case |
| Store.RunMacroSucceeds | server.py:270-289 | on a store of valid, distinctly named configs, an authorised run of a macro it holds answers 200 exactly when `]` has a key code or the macro has no empty group, and it has then pressed the full timeline of the macro's parsed steps |
| Store.RunMacroFails | server.py:270-289 | such a run answers 500 exactly when `]` has no key code and the macro holds an empty group; the events sent are then the timeline of the steps before the first empty group |

## Left out

- The Flask application, its URLs, `url_for` links, `Location` headers, the JSON response bodies and the 405 handling. Statuses are modelled; the message texts are not.
- `win32api.keybd_event` and `time.sleep` become `Down`/`Up`/`Pause` events. The extended-key flag and the 25 ms duration are not modelled.
- File I/O and the JSON encoding. The file is modelled as the list of configs it holds; `os.path` checks are treated as "the file holds this list".
- `read_key_codes` and `read_auth_key` are parameters. A key-code table that is missing after import is modelled only as the unbound name at import time. The random key generation is not modelled.
- The `status` document on `/`, `/clients`, `/clients/<name>` and `/shutdown`. These are read-only views or process control, with no logic beyond a lookup.
- The `since` timestamp of a client, because it comes from the clock.
- Threading: each request is one atomic step on the store.
- JSON values of other types (numbers, nested objects in `keys`, a `request.json` of `None`). Configs are records with a field-name set and string values.
- Store.ListConfigs and Store.GetConfig carry no contract of their own; they are used in the statements of Store.CreateThenGet, Store.ReplaceInPlace, Store.ReplaceRename and Store.DeleteSpec.
- KeyGrammar.CheckKeys has no contract of its own; KeyGrammar.KeysAcceptedIff and KeyGrammar.CheckKeysMeaning characterise it.
- Configs.CheckMacros and Configs.ValidateConfig have no contract of their own; Configs.CheckMacrosMeaning and Configs.ValidateConfigMeaning characterise them.
- Sequencer.SequenceFrom and Sequencer.RunKeys have no contract of their own; Sequencer.SequenceMatchesParse, Sequencer.SequenceAppend, Sequencer.ValidatedRun, Sequencer.ValidatedFailure, Sequencer.ValidatedFailureTrace, Sequencer.UnclosedGroup and Sequencer.UnclosedGroupUnknown characterise them.
- Sequencer.RunKeys on other rejected token lists is not characterised: a `]` with no group open, or a `[` inside an open group. Such lists never reach the store.
- Persistence.KeepValid, Persistence.WriteConfigs and Persistence.ReadConfigs have no contract of their own; Persistence.KeepValidMeaning, Persistence.KeepValidSingle, Persistence.KeepValidAppend, Persistence.KeepValidIdempotent and Persistence.WriteConsistent characterise them.
- Persistence.ReadAtImport and Persistence.ReadAtStartup have no contract of their own; Persistence.StoreLostOnRestart, Persistence.ImportOrderCounterexample and Persistence.RestartRoundTrip characterise them.
- Store.CreateConfig has no contract of its own; Store.CreateSpec and Store.CreateThenGet characterise it.
- Store.ReplaceConfig has no contract of its own; Store.ReplaceSpec (through Store.ReplaceStatus and Store.ReplaceCommits), Store.ReplaceInPlace and Store.ReplaceRename characterise it.
- Store.DeleteConfig has no contract of its own; Store.DeleteSpec characterises it.
- Store.RunMacro has no contract of its own; Store.RunMacroRefused, Store.RunMacroSucceeds and Store.RunMacroFails characterise it.
- Store.Commit has no contract of its own; the success clauses of Store.CreateSpec, Store.ReplaceSpec and Store.DeleteSpec state what it writes.
- Clients.RegisterClient has no contract of its own; Clients.RegisterClientSpec and Clients.RegisterClientIdempotent characterise it.
- Requests.Authorized has no contract of its own; Requests.AuthorizedIgnoresUsername characterises it.
- Store.CreateSpec, Store.ReplaceSpec: on a 500 from a raising validation they state only that some macro lacks `name`, not the converse, because a macro that fails the schema test earlier gives 400 first.
- Store.RunMacroSucceeds, Store.RunMacroFails: they assume a store of valid configs with distinct names, the only kind the handlers create. A file edited by hand can bring back two configs with one name, because the read filter validates each config on its own.

## Findings

| source | as written | input that shows it | evidently intended | confidence | as-written member | corrected member |
|---|---|---|---|---|---|---|
| server.py:126-138 | `configs = read_configs()` runs at import before `key_codes = read_key_codes()`, so `validate_config` evaluates `k not in key_codes` with `key_codes` unbound and raises `NameError` | a stored config `demo` with one macro whose keys are `A`, `A` being a known key: it is written to the file, and the next start fails while importing | read the key codes before the configs, so that a written store comes back unchanged on restart | not executed | Persistence.ReadAtImport (Persistence.StoreLostOnRestart, Persistence.ImportOrderCounterexample) | Persistence.ReadAtStartup (Persistence.RestartRoundTrip) |
