# handlr's handler-resolution engine, in Dafny

handlr picks the desktop application that opens a MIME type. This project models and
verifies the engine behind it:

- `MimeApps`: the user's override store from `mimeapps.list`. It has two maps, "Added
  Associations" and "Default Applications", from MIME type to a list of handlers, plus a
  snapshot of the system registry. The model covers:
  - the in-place edits `add_handler`, `set_handler` and `remove_handler`;
  - the four-tier resolver `get_handler`;
  - the loop in `read` that loads the file;
  - the text `save` writes;
  - the candidate list and the choice of `ask_handler`.
- `SystemApps`: the registry built from the installed desktop entries, and its lookups.
- `select_item`: the numbered terminal picker.
- `Config`: its default, the handling of the external selector's output, and the
  terminal-emulator fallback of `Config::terminal`.
- `Handler`: the newtype around a desktop-entry name, and its resolution against the
  data files.

Modules:

| module | file | contents |
|---|---|---|
| `Base` | base.dfy | `Option`, `Result` and the engine's error kinds |
| `Text` | text.dfy | the Rust string operations the engine uses |
| `Mimes` | mime.dfy | MIME types, the wildcard, the order of sorted keys |
| `Handlers` | handler.dfy | `Handler`, `DesktopEntry`, resolution |
| `System` | system.dfy | `SystemApps` |
| `Utils` | utils.dfy | `select_item` |
| `Configuration` | config.dfy | `Config`, `select` |
| `UserStore` | user_store.dfy | the store as a value, its edits, `get_handler` |
| `UserPersist` | user_persist.dfy | `read` and `save`, and their round trip |
| `UserApps` | user_apps.dfy | the `MimeApps` class and the overrides file |
| `ConfigTerminal` | config_terminal.dfy | `Config::terminal` |
| `UserAsk` | user_ask.dfy | `ask_handler` |

`config.rs` is split in two. `Config::terminal` uses the global `MimeApps`, and
`MimeApps` uses the global `Config`, so one module would import itself.

How the model stands in for what it does not show:

- **Oracles.** Things the engine only consults become parameters:
  - `Env`: the data files `Handler` looks up, each with the outcome of parsing it.
  - `ScannedFile` sequences: the `applications` directory listings.
  - `parse`: `Mime::from_str`.
  - `MimeDb`: `mime_db::extensions` and `mime_db::lookup`.
  - `Process`: the selector, as a function from what it reads to what it prints.
  - Booleans for outcomes that are pure I/O: whether the directories can be listed, the
    notification is sent, or the overrides file can be opened for writing.
- **Errors.**
  - A failing `unwrap` is the error `Panic`.
  - `std::process::exit(1)` is `Exit(1)`.
  - Both are "aborting": no `or_else` or `ok()` recovers from them. Every other error is
    a value that those combinators swallow.
- **Where the model follows the code.** In three places the code does something
  narrower or different from the behaviour one would expect, and the model follows the
  code:
  - `get_handler` swallows `Cancelled` and selector errors of the user-default tiers:
    `or_else` moves on to the next tier. `UserStore.CancellationFallsThrough` states this.
  - `add_handler` does not deduplicate.
  - Alias expansion runs only when fewer than 10 entries declare the type, and then stops
    at the first alias after which more than 10 are collected.

## Model

| member | source | states |
|---|---|---|
| Handlers.AssumeValid | src/common/handler.rs:25-27 | the handler wraps the given name unchanged |
| Handlers.HandlerIdentity | src/common/handler.rs:7-14 | two handlers are equal exactly when their names are; their order is that of the names `Display` prints, total and irreflexive |
| Handlers.ResolveContract | src/common/handler.rs:19-40 | `resolve` succeeds exactly when the data file exists and parses, and then wraps the name unchanged; a missing file is `NotFound(name)`; a parse error is passed on; `from_str` is exactly `resolve` |
| Handlers.GetEntry | src/common/handler.rs:42-44 | the entry loads exactly when the data file exists and parses; a missing data file panics |
| Handlers.ResolvedHandlerHasEntry | src/common/handler.rs:35-44 | the entry of a handler that `resolve` returned loads, and is the entry `resolve` parsed |
| System.GetHandlers | src/apps/system.rs:16-18 | a list is returned exactly when the exact key is present |
| System.GetHandler | src/apps/system.rs:20-22 | a handler is returned exactly when the key is present, and it is one of the key's handlers |
| System.GetEntriesFilter | src/apps/system.rs:24-35 | exactly the `.desktop` files whose entry parsed are yielded, each with its file name, and nothing else; unparsable files are skipped |
| System.Populate | src/apps/system.rs:37-50 | the loop builds the registry; every stored list is non-empty, and the list under each type is `HandlersFor` the entries |
| System.RegistryLookup | src/apps/system.rs:40-47 | one `push_back` per (entry, declared type) pair: the list under `m` is each declaring entry's handler, in scan order, once per declaration; a key is present exactly when that list is non-empty |
| System.RegistryValid | src/apps/system.rs:43-45 | no list the registry stores is empty, so the `unwrap` in `get_handler` cannot fail |
| System.HandlersForProvenance | src/apps/system.rs:40-47 | every handler stored under `m` names an entry that declares `m` |
| System.HandlersForFirst | src/apps/system.rs:40-47 | the first handler under `m` is that of the first entry, in scan order, declaring `m` |
| System.SystemFirstHandler | src/apps/system.rs:20-22 | after `populate`, `get_handler(m)` is the first scanned entry declaring `m` |
| System.SystemNoHandler | src/apps/system.rs:20-22 | after `populate`, `get_handler(m)` is `None` when no scanned entry declares `m` |
| Utils.Classify | src/utils.rs:32-44 | a line is blank, a number within `1..=count`, or rejected |
| Utils.ClassifyBlank | src/utils.rs:32-34 | a line is blank exactly when it is all whitespace |
| Utils.Pick | src/utils.rs:37-40 | a returned index is 1-based and within the item count |
| Utils.PickChosen | src/utils.rs:18-46 | the picker returns `Some(n)` exactly when some line names item `n` and every line before it was rejected, so rejected lines re-prompt |
| Utils.PickBlank | src/utils.rs:32-34 | a blank line after only rejected lines, or the end of input, returns `None` |
| Utils.SelectItem | src/utils.rs:13-46 | the loop returns the index `Pick` defines; what it prints is one listing and prompt per line read, with the error message after each rejected line |
| Utils.NoItemsNoChoice | src/utils.rs:32-40 | with no items, every non-blank line is rejected and the result is `None` |
| Utils.ChoosingPrintedNumber | src/utils.rs:20-40 | typing the number printed next to an item selects that item |
| Utils.ListingAppend | src/utils.rs:20-23 | items are listed in input order, numbered from 1: an item added at the end adds exactly its own line, numbered one past the others |
| Configuration.DefaultConfig | src/config.rs:16-22 | the selector is disabled, and the command is `rofi -dmenu -i -p 'Open With: '` |
| Configuration.Select | src/config.rs:65-103 | an answer is non-empty and a prefix of what the selector printed; the only errors are `Io`, `Selector(command)` and `Cancelled` |
| Configuration.SelectOutcome | src/config.rs:79-101 | `Cancelled` exactly when a connected selector prints only whitespace; otherwise the answer is its output with the trailing whitespace removed; a missing stdin or stdout pipe is `Selector(command)`; a spawn failure is `Io` |
| Configuration.SelectorSeesOptions | src/config.rs:86 | the selector reads the options joined by newlines: splitting its input on `\n` gives the options back |
| Configuration.SelectReturnsAnswer | src/config.rs:95-101 | an output without trailing whitespace is returned unchanged |
| Mimes.Wildcard | src/apps/user.rs:218 | the wildcard keeps the type, has subtype `*`, and prints as `type/*` |
| Mimes.EssenceInjective | src/apps/user.rs:359 | distinct types print as distinct keys |
| Mimes.SortedEnumerationIsSortedKeys | src/apps/user.rs:358 | an ascending enumeration of the keys of a map is unique, so the order `iter().sorted()` writes the keys in is determined |
| UserStore.AddTo | src/apps/user.rs:39-44 | `h` is appended at the back of the list of `m`, which is created with `[h]` when absent; the length grows by one; other keys are unchanged |
| UserStore.SetTo | src/apps/user.rs:46-48 | `m` maps to `[h]`; other keys are unchanged |
| UserStore.RemoveFrom | src/apps/user.rs:50-56 | `m` is absent; other keys are unchanged; a map whose lists are all non-empty stays so |
| UserStore.EditsKeepListsNonEmpty | src/apps/user.rs:39-56 | none of the three edits leaves an empty list behind |
| UserStore.EntryNames | src/apps/user.rs:227-230 | the display names of all candidates, in order, when every entry loads; otherwise the `unwrap` panics |
| UserStore.FindName | src/apps/user.rs:235-238 | the index of the first candidate with that name, found exactly when the name is present |
| UserStore.GetHandlerFromUser | src/apps/user.rs:224-247 | a result is one of the defaults of `m`; `NotFound` exactly when `m` is absent; other failures come from the selector or a panic |
| UserStore.GetHandlerFromAdded | src/apps/user.rs:250-256 | succeeds exactly when the type is an added association or in the system registry; otherwise `NotFound` |
| UserStore.GetHandlerIn | src/apps/user.rs:215-222 | a result is a handler, `NotFound` of the type, or an aborting error |
| UserStore.ExactDefaultWins | src/apps/user.rs:245 | an exact default without a selection to make answers its first handler |
| UserStore.WildcardDefaultNext | src/apps/user.rs:217-220 | without an exact default, the `type/*` default answers |
| UserStore.AddedAssociationNext | src/apps/user.rs:250-253 | without either default, the first added association answers |
| UserStore.SystemHandlerNext | src/apps/user.rs:254 | then the first system handler answers |
| UserStore.NotFoundExactly | src/apps/user.rs:255 | when no tier knows the type, the answer is `NotFound` of its essence; a `NotFound` answer means that the added associations and the system lack the type and both user tiers fell through |
| UserStore.ResolvedFromSomeTier | src/apps/user.rs:215-256 | a resolved handler comes from the exact defaults, the wildcard defaults, the first added association or the first system handler |
| UserStore.SelectionPicksNamedHandler | src/apps/user.rs:226-243 | with the selector enabled and several exact defaults, the answer is the first candidate whose display name the selector printed |
| UserStore.EmptySelectionCancels | src/apps/user.rs:233 | a selector that prints only whitespace makes the exact lookup `Cancelled` |
| UserStore.CancellationFallsThrough | src/apps/user.rs:216-221 | a cancelled exact lookup moves on to the wildcard and then to the added associations, so `get_handler` never answers `Cancelled` from it |
| UserStore.WildcardMimes | src/apps/user.rs:425-457 | with `video/*` set to mpv and `video/webm` set to brave, `video/mp4` and `video/asdf` resolve to mpv and `video/webm` to brave, whatever the configuration |
| UserPersist.UniqueProps | src/apps/user.rs:322 | `unique` repeats nothing and keeps every element |
| UserPersist.UniqueOrder | src/apps/user.rs:322 | `unique` keeps first occurrences in order: it starts with the first element, and of two kept elements the earlier one first occurs earlier in the input |
| UserPersist.NonEmptyTokensMembers | src/apps/user.rs:321 | exactly the non-empty tokens are kept |
| UserPersist.ResolvableMembers | src/apps/user.rs:323 | exactly the tokens that resolve become handlers |
| UserPersist.ParseValueValid | src/apps/user.rs:316-324 | a parsed list repeats no handler and holds only handlers that resolve, with non-empty names free of `;` |
| UserPersist.ParseValueText | src/apps/user.rs:316-324 | parsing the value `save` writes for a list gives the list back, without its repeats |
| UserPersist.ReadEntries | src/apps/user.rs:304-340 | the loop computes `ReadAll` over the lines; every stored list is non-empty, repeats nothing and resolves |
| UserPersist.ReadAllValid | src/apps/user.rs:327 | an empty parsed list is never stored, so no stored list is empty |
| UserPersist.ReadGroup | src/apps/user.rs:306-308 | the current group is the last header before the line |
| UserPersist.ReadKeeps | src/apps/user.rs:327-335 | a key is in a group's map exactly when some line of that group stored a non-empty list under a key that parses to it; other groups and bad keys are ignored |
| UserPersist.ReadLastWins | src/apps/user.rs:328-333 | a repeated key holds the list of its last line |
| UserPersist.WriteGroup | src/apps/user.rs:366-371 | the loop writes one `type=h1;…;hn;` line per key, in ascending key order |
| UserPersist.Serialize | src/apps/user.rs:357-371 | the text is the `[Added Associations]` header and its lines, a blank line, then the `[Default Applications]` header and its lines |
| UserPersist.SaveTextRendersEvents | src/apps/user.rs:357-371 | that text is the rendering of a header, property and blank-line sequence |
| UserPersist.RoundTripInAnyOrder | src/apps/user.rs:358 | reading back gives the same maps whatever order the keys are written in |
| UserPersist.SaveReadRoundTrip | src/apps/user.rs:357-371 | reading what `save` wrote gives both maps back, each list without its repeats, when every key reparses and every handler resolves and has a non-empty name without `;` |
| UserPersist.SaveReadIdentity | src/apps/user.rs:304-340 | for lists that are also free of repeats, reading back gives exactly the saved maps |
| UserApps.MimeApps.Empty | src/apps/user.rs:30 | the `Default` store: both maps empty, the system snapshot empty |
| UserApps.MimeApps.Read | src/apps/user.rs:283-343 | the system snapshot is `populate` of the entries; the maps are what the loop reads; every list is non-empty, repeats nothing and resolves |
| UserApps.MimeApps.AddHandler | src/apps/user.rs:39-44 | `default_apps` becomes `AddTo` of its old value; the other fields are unchanged; validity is kept |
| UserApps.MimeApps.SetHandler | src/apps/user.rs:46-48 | `default_apps` becomes `SetTo` of its old value; the other fields are unchanged; validity is kept |
| UserApps.MimeApps.RemoveHandler | src/apps/user.rs:50-56 | the key is removed; the file is saved once when the key was present and never otherwise; the result is `Ok` when nothing was removed, else that of the save |
| UserApps.MimeApps.Save | src/apps/user.rs:345-375 | a writable file is rewritten once with `SaveText` of both maps; otherwise `Io`, and the file is left as it was |
| UserApps.MimeApps.Clone | src/apps/user.rs:30 | a fresh store with the same maps, writing to the same file |
| UserApps.MimeApps.GetHandler | src/apps/user.rs:215-222 | the tiered resolution over the current fields |
| UserApps.WildcardMimesStore | src/apps/user.rs:426-434 | the test's store is built by the two `add_handler` calls on the default store |
| ConfigTerminal.FirstTerminal | src/config.rs:34-36 | the index of the first entry whose categories include `TerminalEmulator`, or none when no entry has it |
| ConfigTerminal.ConfiguredTerminal | src/config.rs:27-30 | when the terminal handler resolves and its entry loads, that entry; when either lookup fails, `None` unless the error aborts, in which case it is passed on |
| ConfigTerminal.Guess | src/config.rs:33-46 | a guess is the first terminal emulator, found only when the directories are listed and the notification is sent |
| ConfigTerminal.TerminalResult | src/config.rs:26-59 | the answer is a command, `NoTerminal`, or an aborting error |
| ConfigTerminal.GuessResult | src/config.rs:33-58 | the fallback answers the guessed entry's command exactly when there is a guess and it was saved; otherwise `NoTerminal` |
| ConfigTerminal.Terminal | src/config.rs:26-59 | the method answers `TerminalResult`; it writes the file once, with the guess set as the terminal handler, exactly when it guessed and could save; otherwise the file is unchanged |
| ConfigTerminal.GuessTerminal | src/config.rs:33-56 | the fallback answers `GuessResult`, and saves a copy of the store with the guess set as terminal handler exactly when it answers |
| ConfigTerminal.ConfiguredTerminalWins | src/config.rs:27-32 | a configured terminal whose entry loads is used |
| ConfigTerminal.FallbackToFirstEmulator | src/config.rs:33-56 | otherwise the first installed terminal emulator is used |
| ConfigTerminal.NoTerminalExactly | src/config.rs:57-58 | without a configured terminal, `NoTerminal` exactly when no emulator is guessed or the guess cannot be saved; no guess exactly when the directories are unlisted, the notification fails, or no entry is a terminal emulator |
| ConfigTerminal.SavedGuessResolves | src/config.rs:48-53 | the saved guess is what the next lookup of `x-scheme-handler/terminal` finds |
| UserAsk.EntriesDeclaringMembers | src/apps/user.rs:151-156 | `get_apps` yields exactly the listed entries declaring the type |
| UserAsk.Globs | src/apps/user.rs:146-148 | the type's globs, else those of `text/plain`; the `unwrap` panics when it has neither |
| UserAsk.StepAlias | src/apps/user.rs:168-172 | one alias only appends to the list; a type that does not parse is an error |
| UserAsk.Aliases | src/apps/user.rs:167-176 | the expansion loop only appends to the list |
| UserAsk.AliasesStopRule | src/apps/user.rs:166-176 | the loop's result is the expansion by the globs up to and including the first at which more than 10 entries are collected, or by all globs when that never happens |
| UserAsk.AliasesListed | src/apps/user.rs:167-176 | every entry the expansion adds is a listed entry |
| UserAsk.SystemCandidates | src/apps/user.rs:164-177 | the exact declarers come first; expansion happens only when fewer than 10 declare the type |
| UserAsk.Resolved | src/apps/user.rs:158-162 | when `get_handler` resolves and the entry loads, exactly that entry; when either lookup fails, nothing unless the error aborts, in which case it is passed on |
| UserAsk.Dedup | src/apps/user.rs:180 | `dedup` keeps the last element |
| UserAsk.DedupProps | src/apps/user.rs:180 | no two neighbours are equal, the same elements remain, the first stays first |
| UserAsk.DedupOfNoAdjacent | src/apps/user.rs:180 | only adjacent repeats are removed: a list without them is unchanged |
| UserAsk.DedupKeepsSeparated | src/apps/user.rs:180 | an entry repeated with another between them is kept twice |
| UserAsk.CandidatesOrder | src/apps/user.rs:158-180 | the entry of the handler `get_handler` resolves, when it loads, comes first; then the exact declarers in listing order, with no adjacent repeat and none of the declarers lost |
| UserAsk.CandidatesProvenance | src/apps/user.rs:151-180 | every candidate is the resolved entry or a listed entry |
| UserAsk.FileLabels | src/apps/user.rs:188 | each candidate's file name, with its `"` removed |
| UserAsk.PromptLabels | src/apps/user.rs:197-204 | each candidate as `name -- file name` |
| UserAsk.ChooseBySelector | src/apps/user.rs:184-192 | a selected entry is a candidate |
| UserAsk.SelectorChoice | src/apps/user.rs:191-192 | the answer is the first candidate whose label the selector printed, found exactly when some candidate has it; otherwise `Cancelled` |
| UserAsk.SelectorAnswer | src/apps/user.rs:186-189 | the selector's answer is looked up among the labels; the selector's errors are passed on |
| UserAsk.ChooseByPrompt | src/apps/user.rs:193-210 | a selected entry is a candidate |
| UserAsk.PromptAnswer | src/apps/user.rs:205-210 | the entry numbered by the picker is a candidate |
| UserAsk.PromptChoice | src/apps/user.rs:193-210 | typing a candidate's number picks it; a blank line or no input ends the process with status 1 |
| UserAsk.NoCandidatesExit | src/apps/user.rs:207-209 | with no candidates the prompt can only end the process |
| UserAsk.Choose | src/apps/user.rs:182-210 | the chosen entry is a candidate |
| UserAsk.Ask | src/apps/user.rs:139-213 | the answer is one of the candidates |
| UserAsk.ExpandAliases | src/apps/user.rs:166-177 | the `for` loop with its `break` computes `Aliases` |
| UserAsk.CollectCandidates | src/apps/user.rs:146-180 | the imperative assembly computes `Candidates` |
| UserAsk.ChooseWithSelector | src/apps/user.rs:184-192 | the selector branch computes `ChooseBySelector` |
| UserAsk.ChooseWithPrompt | src/apps/user.rs:193-210 | the prompt branch, through `select_item`, computes `ChooseByPrompt` |
| UserAsk.AskHandler | src/apps/user.rs:139-213 | the method computes `Ask` |

## Left out

- Filesystem and XDG work are parameters of the model, not modelled:
  - `MimeApps::path`;
  - opening `mimeapps.list` (in `read`, a file that cannot be read);
  - the directory listing of `get_entries`;
  - `Handler::get_path`.
- `save`: only the failure to open the file is modelled (`OverrideFile.writable`). A write
  or flush that fails part-way through is not.
- The `ini.pest` grammar is not part of this model.
  - `read` is modelled over the sequence of section and property lines the grammar yields.
  - The round trip is stated over the lines `save` writes, as that sequence.
  - `SaveTextRendersEvents` ties those lines to the saved text.
- These are oracle parameters: `Mime::from_str`, `mime_db`, `DesktopEntry::try_from`, and
  which categories and MIME types an entry declares.
- The `skim` picker is not modelled. `ask_handler` is modelled for the selector and
  numbered-prompt modes only.
- `notify` is a boolean: whether the notification could be sent.
- Process spawning in `Config::select`:
  - The selector is a function from its input text to its output text.
  - The `shlex` split of the command, its `unwrap`, and the `split.remove(0)` at
    src/config.rs:74 are not modelled. That call panics when the selector command is
    empty or all whitespace.
  - `Config::load` (confy) is not modelled; the configuration is a parameter.
- Output-only operations are not modelled: `cat_handler`, `edit_handler`, `get_status`,
  `show_handler`, `print`, `list_handlers`, the tables they print, and the `eprintln!`
  before `exit(1)` in `ask_handler`.
- `src/main.rs`, `src/cli.rs`, `src/common/db.rs` and `src/common/mod.rs` are not part of
  this model.
- Names are `string`s. The `to_str().unwrap()` on non-UTF-8 file names cannot fail in the
  model, and `to_string_lossy` is the identity.
- System.RegistryLookup: the sum of all list lengths is not stated as one total. It is
  stated per key: the list under each type has one handler per (entry, declaration)
  pair.
- UserStore.GetHandlerFromUser: the `unwrap` at src/apps/user.rs:238 is modelled as a
  `Panic` error. It is reached when the selector prints a name that no candidate has.
- Orders of `HashMap` iteration other than `sorted()` are not modelled. Of the modelled
  operations, only `save` iterates a map, and it sorts the keys. `get_status` walks
  `default_apps` in hash order (src/apps/user.rs:112). Both it and `print` sort their
  rows before printing (src/apps/user.rs:104, 381). Both are output-only and not modelled.
- Configuration.Select: a failure of `write_all` to the selector's standard input or of
  `read_to_string` from its output (a broken pipe, output that is not UTF-8) is not
  modelled. `Process` has flags only for spawning and for the two pipes, and the output
  is a string.
- System.Populate and UserApps.MimeApps.Read cannot fail in the model. The directory
  listing of `get_entries` (`?` at src/apps/system.rs:40) and the grammar's parse
  (`?` at src/apps/user.rs:295) are outside the model, so their errors are not.
- Mimes: a `Mime` is a type and a subtype only. MIME parameters (`;charset=...`) are not
  modelled, though the source's `Mime` takes them into equality and ordering and
  `essence_str` drops them when saving.
- Utils.SelectItem: the `expect` at src/utils.rs:26-28, which panics when reading
  standard input fails, is not modelled. The input is a sequence of lines, and reading
  it cannot fail.
