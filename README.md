# handlr handler resolution, modelled in Dafny

handlr decides which application opens a file, a URL or a mime type on a
freedesktop system. It keeps the user's associations in `mimeapps.list`: an
`[Added Associations]` section and a `[Default Applications]` section, each
mapping a mime type to an ordered list of `.desktop` handlers. Behind those
sits a catalogue of every installed descriptor, keyed by the mime types the
descriptors declare. Resolving a mime type tries the user's default list,
then the added associations, then the system catalogue. Launching a handler
substitutes the field codes `%f %F %u %U` of its `Exec` template. It starts
either one process for all arguments or one process per argument.

The repository holds two generations of this code, and the model keeps them
apart:

- **Current layout:** `src/apps/*`, `src/common/*` and `src/mime_types.rs`.
  - `UserApps`: the user store, as a class with the two maps as fields.
  - `SystemCatalog`: the system catalogue fold.
  - `DesktopEntries`: parsing a descriptor, building its command and running it.
  - `MimeTypes`: classifying arguments and user input into mime types.
  - `RegexApps`: handlers chosen by regular expression.
  - `EarlyMimeTypes`: the validator of `src/mime_types.rs`.
- **Early prototype:** `src/mimeapps.rs` and `src/common.rs`.
  - `EarlyMimeApps`: the user store with `push_front`, raw keys and a panicking lookup.
  - `EarlyEntry`: the last-line-wins descriptor reader.

Shared pieces:

- `Ini`: the tokenised `mimeapps.list` lines and the exact text `save` writes.
- `MimeAppsList`: the line fold of `read` and the writer of `save`. Both
  generations use it; the early one stores keys unvalidated.
- `Strings`: split, join, filter, dedup and lexicographic order.
- `Errors`: the error enum.

Everything outside the program is a parameter of the operation that consults
it. That covers the handler-name check `Handler::from_str`, `Mime::from_str`,
the URL parser, the content detector and the extension table. It also covers
the regex engine, `shlex::split`, the selector process, the spawn outcome and
whether stdout is a terminal. Panics from `unwrap` and `Vec::remove(0)` are
modelled as `Err(Panic(UnwrapNone))` or `Err(Panic(UnwrapErr))`, so their
conditions can be stated.

## Model

| member | source | states |
|---|---|---|
| UserApps.MimeApps.AddHandler | src/apps/user.rs:23-28 | the handler is appended to the back of the mime's default list, created empty if absent; added associations and other keys are untouched; the saved text is the new state's serialisation; the non-empty-list invariant is kept |
| UserApps.MimeApps.SetHandler | src/apps/user.rs:29-37 | the mime's default list becomes exactly `[handler]`, discarding alternates; everything else is unchanged; the new state is saved |
| UserApps.MimeApps.RemoveHandler | src/apps/user.rs:38-44 | the key is deleted; text is saved iff the key was present; an absent key changes nothing |
| UserApps.MimeApps.GetHandler | src/apps/user.rs:45-68 | a returned handler belongs to the default list, else (no default entry) to the added list, else (neither) to the system list |
| UserApps.Resolve | src/apps/user.rs:45-68 | a config load error propagates; a mime known to no tier yields `NotFound(mime)`; a result comes from the first tier holding the mime |
| UserApps.DefaultFront | src/apps/user.rs:48-60 | with the selector off or at most one default handler, the front of the default list is returned |
| UserApps.Fallback | src/apps/user.rs:61-66 | without a default entry: the front of the added list, else the system's first handler, else `NotFound(mime)` |
| UserApps.SelectorChoice | src/apps/user.rs:49-58 | with the selector on and several defaults, the result is the first default handler whose display name is the selector's output; an output naming no handler panics on the `unwrap` |
| UserApps.SelectNamed | src/apps/user.rs:52-57 | the selected name's first position picks the handler at that position, whose display name is the selected name |
| UserApps.FirstNamed | src/apps/user.rs:57 | `position` finds the earliest handler with the selected name: every other handler with that name stands after it |
| UserApps.Names | src/apps/user.rs:52 | the display names exist iff every handler's entry has one; they are listed position by position |
| UserApps.FindName | src/apps/user.rs:57 | the index is found iff the name occurs; it is the first occurrence |
| UserApps.Select | src/apps/user.rs:48-59 | a selected handler is one of the defaults, and the selector returned its display name |
| UserApps.Front | src/apps/user.rs:60 | the front exists iff the list is non-empty, and is its first element |
| UserApps.ResolveAfterSet | src/apps/user.rs:29-37 | after `set_handler`, resolution of that mime returns the handler just set |
| UserApps.ResolveAfterAdd | src/apps/user.rs:23-28 | after `add_handler`, a new mime resolves to the added handler; an existing list keeps its front when the selector is off |
| UserApps.ResolveAfterRemove | src/apps/user.rs:38-44 | after `remove_handler`, the mime resolves as if it had no default entry |
| UserApps.ResolveOtherMime | src/apps/user.rs:29-44 | setting or removing one mime leaves the resolution of every other mime unchanged |
| UserApps.MimeApps.Read | src/apps/user.rs:90-148 | the loop over the lines builds exactly the maps of the `read` fold; with a well-formed catalogue the store is valid |
| UserApps.MimeApps.Save | src/apps/user.rs:149-178 | the text written is the serialisation of the two maps |
| UserApps.MimeApps.constructor | src/apps/user.rs:98-102 | the store starts from the given maps and catalogue |
| Ini.ParsedList | src/apps/user.rs:113-125 | a parsed value has no duplicates and holds exactly the non-empty, valid `;`-pieces, each free of `;` |
| Ini.ParseListValue | src/apps/user.rs:113-125 | a well-formed handler list written as `h1;…;hn;` parses back to itself |
| MimeAppsList.ReadKeepsLists | src/apps/user.rs:127-141 | reading keeps every stored list non-empty, duplicate-free, `;`-free and made of valid handlers |
| MimeAppsList.ReadLineKeepsLists | src/apps/user.rs:127-141 | one line keeps the same invariant on both maps |
| MimeAppsList.UnknownSectionIgnored | src/apps/user.rs:132-139 | properties under a section other than the two known ones change nothing |
| MimeAppsList.LaterLineWins | src/apps/user.rs:127-141 | a later property line for the same key overwrites the earlier one |
| MimeAppsList.ReadSingle | src/apps/user.rs:104-145 | reading one line is one step of the fold |
| MimeAppsList.ReadLinesAppend | src/apps/user.rs:104-145 | reading two consecutive runs of lines equals reading the first, then continuing with the second |
| MimeAppsList.ReadHeader | src/apps/user.rs:106-108 | a section header only switches the current section |
| MimeAppsList.ReadSeparator | src/apps/user.rs:168 | the blank line and the default header written by `save` read back as a switch to the default section |
| MimeAppsList.ReadProperties | src/apps/user.rs:127-141 | reading the property lines of a map under a known section adds that map to the section's map and leaves the other map alone |
| MimeAppsList.ReadAddedHalf | src/apps/user.rs:160-166 | the added half of the saved text reads back as the added map |
| MimeAppsList.ReadDefaultHalf | src/apps/user.rs:168-174 | the default half reads back as the default map, keeping the added one |
| MimeAppsList.ReadBothHalves | src/apps/user.rs:160-174 | both halves in any key order read back as both maps |
| MimeAppsList.SaveThenRead | src/apps/user.rs:149-178 | round trip: reading what `save` lays out restores both maps when their lists are non-empty, duplicate-free, `;`-free, valid and keyed by parseable mimes |
| MimeAppsList.WriteEntries | src/apps/user.rs:161-166 | the loop writes the section header followed by one `key=h1;…;hn;` line per key, in key order |
| MimeAppsList.SaveText | src/apps/user.rs:160-174 | the written text is the added header, the sorted added lines, a blank line, the default header and the sorted default lines |
| Ini.SerializeParts | src/apps/user.rs:160-174 | the saved text is both headers with the rendered property lines of each map in sorted key order |
| Ini.RenderSections | src/apps/user.rs:160-174 | the layout renders to the added header, its lines, `\n[Default Applications]\n` and its lines |
| Ini.RenderNextProperty | src/apps/user.rs:161-166 | each further key appends exactly its `key=h1;…;hn;\n` line |
| Ini.PropertyText | src/apps/user.rs:162-165 | a property line is the key, `=`, the handlers joined by `;`, a final `;` and a newline |
| Ini.RenderAppend | src/apps/user.rs:149-178 | rendering distributes over concatenation of lines |
| Ini.AddedHeaderText | src/apps/user.rs:160 | the added header renders as `[Added Associations]\n` |
| Ini.DefaultHeaderText | src/apps/user.rs:168 | the separator renders as `\n[Default Applications]\n` |
| Ini.Properties | src/apps/user.rs:161-174 | one property line per key |
| Strings.DedupDistinct | src/apps/user.rs:122 | `unique` changes nothing on a list that has no duplicates |
| Strings.DedupFirstOccurrenceOrder | src/apps/user.rs:122 | `unique` keeps first occurrences in their original order |
| Strings.FilterNoDuplicates | src/apps/user.rs:123 | filtering a duplicate-free list keeps it duplicate-free |
| Strings.JoinSplit | src/apps/user.rs:120 | joining the split pieces gives back the text |
| Strings.SplitJoin | src/apps/user.rs:120 | splitting on `;` undoes joining `;`-free pieces |
| Strings.LeastOf | src/apps/user.rs:161 | every non-empty key set has a least key, the first one `sorted` writes |
| Strings.SortedKeys | src/apps/user.rs:161 | `sorted` lists every key of the map once, in ascending order |
| EarlyMimeApps.MimeApps.SetHandler | src/mimeapps.rs:17-22 | the handler is pushed to the front of the default list; earlier handlers stay as alternates; other keys unchanged; the new state is saved |
| EarlyMimeApps.MimeApps.RemoveHandler | src/mimeapps.rs:23-29 | the key is deleted; text is saved iff it was present |
| EarlyMimeApps.MimeApps.GetHandler | src/mimeapps.rs:30-37 | a returned handler belongs to the first tier holding the mime |
| EarlyMimeApps.Resolve | src/mimeapps.rs:30-37 | the front of the default list if the key exists (an empty list panics), else of the added list, else the system's first handler, else `NotFound` |
| EarlyMimeApps.ResolveNoPanic | src/mimeapps.rs:30-37 | with non-empty lists, resolution succeeds iff some tier holds the mime |
| EarlyMimeApps.ResolveAfterSet | src/mimeapps.rs:17-22 | after `set_handler`, the mime resolves to the handler just pushed |
| EarlyMimeApps.ResolveAfterRemove | src/mimeapps.rs:23-29 | after `remove_handler`, the mime resolves as if it had no default entry |
| EarlyMimeApps.ResolveOtherMime | src/mimeapps.rs:17-29 | other mimes resolve as before |
| EarlyMimeApps.MimeApps.Read | src/mimeapps.rs:59-114 | the loop builds the maps of the `read` fold with raw keys |
| EarlyMimeApps.RawKeyStored | src/mimeapps.rs:97-106 | a non-empty list is stored under the unvalidated key name |
| EarlyMimeApps.SaveThenReadRaw | src/mimeapps.rs:115-144 | round trip with raw keys: reading the saved layout restores both maps |
| EarlyMimeApps.MimeApps.Save | src/mimeapps.rs:126-140 | both headers are written unconditionally, then the sorted `key=list;` lines |
| EarlyMimeApps.MimeApps.constructor | src/mimeapps.rs:66-70 | the store starts from the given maps and catalogue |
| EarlyMimeApps.Populate | src/mimeapps.rs:193-227 | the nested loops over directories and entries build the catalogue fold |
| EarlyMimeApps.AddDeclared | src/mimeapps.rs:216-223 | the entry's file name is pushed onto the list of every mime it declares |
| EarlyMimeApps.PopulatedFromScan | src/mimeapps.rs:216-223 | every list is non-empty and each handler in it comes from an accepted entry declaring that mime |
| EarlyMimeApps.AcceptDeclares | src/mimeapps.rs:208-215 | an entry counts iff it has the `desktop` extension, reads, and has a non-empty last `Name` and `Exec`; it declares the mimes of its last `MimeType` line |
| EarlyEntry.TryFrom | src/common.rs:23-68 | a read or parse error propagates; the entry is the fold of the lines and is accepted iff its name and exec are non-empty, else `InvalidEntry` |
| EarlyEntry.LastLineWins | src/common.rs:31-55 | name, exec and mimes come from the last line with that key, in any section |
| EarlyEntry.LastPropertySnoc | src/common.rs:31-61 | a new last line with the key becomes the last value |
| EarlyEntry.FoldAppend | src/common.rs:31-61 | the fold over two runs of lines is the fold over the first continued with the second |
| EarlyEntry.IgnoredLineDropsOut | src/common.rs:56-59 | headers, blanks and other keys can be removed from anywhere without effect |
| EarlyEntry.MimeList | src/common.rs:44-54 | the mime list has one piece fewer than the `;`-split value |
| EarlyEntry.MimeListTerminated | src/common.rs:44-54 | a `;`-terminated list yields exactly its types, with no validation |
| EarlyEntry.MimeListUnterminated | src/common.rs:53 | without the trailing `;` the last declared type is lost |
| EarlyEntry.AcceptedIff | src/common.rs:63-67 | accepted iff the last `Name` and last `Exec` lines exist and are non-empty |
| DesktopEntries.FoldFirstName | src/common/desktop_entry.rs:96-98 | the name is empty iff no `Name` attribute has a non-empty value; otherwise it is the first such value |
| DesktopEntries.FoldLastExec | src/common/desktop_entry.rs:99 | exec is the last `Exec` value, else empty |
| DesktopEntries.FoldLastTerminal | src/common/desktop_entry.rs:110 | term holds iff the last `Terminal` value is exactly `true` |
| DesktopEntries.FoldLastMimeType | src/common/desktop_entry.rs:100-109 | mimes are the parseable pieces of the last `MimeType` value minus the last one |
| DesktopEntries.FoldKeepsFileName | src/common/desktop_entry.rs:92 | the file name set before the loop is kept |
| DesktopEntries.LastValueIsLast | src/common/desktop_entry.rs:94-113 | the last value of a key is carried by an attribute after which no attribute sets that key |
| DesktopEntries.ParseEach | src/common/desktop_entry.rs:105 | `filter_map` keeps at most as many mimes as pieces |
| DesktopEntries.ParseEachCanonical | src/common/desktop_entry.rs:105 | pieces that all parse to themselves are all kept |
| DesktopEntries.ParseEachAppend | src/common/desktop_entry.rs:105 | parsing distributes over concatenation |
| DesktopEntries.ParseMimeListDropsLast | src/common/desktop_entry.rs:100-108 | on a `;`-terminated list the `pop` drops the last real type |
| DesktopEntries.ParseTerminatedList | src/common/desktop_entry.rs:104-106 | before the `pop`, a `;`-terminated list parses to exactly its types |
| DesktopEntries.ParseResult | src/common/desktop_entry.rs:87-120 | an entry results iff the path has a file name, the section exists, some `Name` is non-empty and the last `Exec` is non-empty; it is the attribute fold |
| DesktopEntries.ParseFile | src/common/desktop_entry.rs:87-120 | the attribute loop computes that result |
| DesktopEntries.EntryFromPath | src/common/desktop_entry.rs:122-127 | a rejected file yields `BadEntry(path)` |
| DesktopEntries.BuildCommand | src/common/desktop_entry.rs:58-84 | a command exists iff the token list is non-empty; program followed by argv is the terminal prefix followed by the substituted tokens |
| DesktopEntries.GetCmd | src/common/desktop_entry.rs:58-84 | the method with the terminal reassignment computes that command |
| DesktopEntries.CommandWithoutTerminal | src/common/desktop_entry.rs:75 | without a terminal request, or on a tty, nothing is prepended |
| DesktopEntries.CommandInTerminal | src/common/desktop_entry.rs:75-81 | a terminal entry off a tty runs the emulator, with its arguments ahead of the command |
| DesktopEntries.SubstituteSplice | src/common/desktop_entry.rs:64-65 | a bare field-code token is replaced by the whole argument list in place |
| DesktopEntries.SubstituteEmbedded | src/common/desktop_entry.rs:66-68 | a word with text around one embedded code, anywhere in the template, becomes one word with the arguments joined by spaces in the code's place |
| DesktopEntries.SubstituteEmbeddedAnywhere | src/common/desktop_entry.rs:62-70 | any word that contains codes without being one stays one word, rewritten by `replace_all`; code-free words around it are kept |
| DesktopEntries.ReplaceOneCode | src/common/desktop_entry.rs:65-67 | a word holding exactly one code in code-free text matches the regex, and `replace_all` replaces just that code |
| DesktopEntries.ReplaceAtCode | src/common/desktop_entry.rs:67 | `replace_all` keeps the plain text before the first code, puts the replacement in its place and continues after it |
| DesktopEntries.SubstituteCodeFree | src/common/desktop_entry.rs:69 | tokens without codes are unchanged |
| DesktopEntries.SubstituteAppend | src/common/desktop_entry.rs:64-71 | substitution works token by token |
| DesktopEntries.ReplaceWithoutCode | src/common/desktop_entry.rs:67 | `replace_all` leaves code-free text unchanged |
| DesktopEntries.ReplaceAfterPlainText | src/common/desktop_entry.rs:67 | `replace_all` passes over a code-free prefix not ending in `%` |
| DesktopEntries.Batches | src/common/desktop_entry.rs:28-38 | no arguments: one empty invocation; `%F`/`%U` or launch mode: one invocation with all arguments; otherwise one per argument, in order |
| DesktopEntries.Singles | src/common/desktop_entry.rs:35-37 | one single-argument invocation per argument |
| DesktopEntries.Exec | src/common/desktop_entry.rs:27-41 | the commands attempted (a failed spawn included, as the last one) and the result are those of running the batches |
| DesktopEntries.ExecEach | src/common/desktop_entry.rs:35-37 | the per-argument loop runs the single batches, stopping at the first failure |
| DesktopEntries.ExecInner | src/common/desktop_entry.rs:42-57 | one invocation: build the command and try to spawn it; a build panic attempts nothing |
| DesktopEntries.RunSucceeds | src/common/desktop_entry.rs:35-37 | the run succeeds iff every invocation builds and spawns |
| DesktopEntries.RunStepOk | src/common/desktop_entry.rs:35-37 | a run succeeds iff its prefix does and its last invocation does |
| DesktopEntries.RunCommands | src/common/desktop_entry.rs:35-37 | a successful run spawns exactly one command per batch, in order |
| DesktopEntries.RunLastOk | src/common/desktop_entry.rs:35-37 | a successful run is a successful run of the earlier batches followed by the last batch's command |
| DesktopEntries.RunStopsAtFailure | src/common/desktop_entry.rs:35-37 | a failing invocation makes the run fail with nothing attempted after it |
| DesktopEntries.RunAbandonsRest | src/common/desktop_entry.rs:35-37 | after a failure the remaining batches are not run |
| DesktopEntries.RunLength | src/common/desktop_entry.rs:35-37 | never more commands than batches |
| DesktopEntries.SingleBatch | src/common/desktop_entry.rs:30-33 | a single batch is a single invocation |
| DesktopEntries.OpenOnePerArgument | src/common/desktop_entry.rs:34-37 | in open mode without `%F`/`%U`, one command per argument, each with that argument alone |
| SystemCatalog.GetHandlers | src/apps/system.rs:16-18 | the mime's list, `None` iff the key is absent |
| SystemCatalog.GetHandler | src/apps/system.rs:19-21 | the first handler of the mime's list, `None` iff the key is absent |
| SystemCatalog.Populate | src/apps/system.rs:22-50 | the nested loops over directories and entries build the catalogue fold |
| SystemCatalog.PopulatedAt | src/apps/system.rs:39-45 | each mime's list is the file names of the accepted entries declaring it, in scan order |
| SystemCatalog.PopulatedNonEmpty | src/apps/system.rs:40-45 | every key of the catalogue has a non-empty list |
| SystemCatalog.PopulatedProvenance | src/apps/system.rs:40-45 | every handler listed for a mime comes from an accepted entry whose mimes contain it |
| SystemCatalog.AddMimesAt | src/apps/system.rs:41-45 | one entry appends its file name to each declared mime once per declaration |
| SystemCatalog.AddAcceptedAt | src/apps/system.rs:38-45 | a rejected entry contributes nothing |
| SystemCatalog.AddEntriesAt | src/apps/system.rs:34-46 | a directory's entries append their contributions in scan order |
| SystemCatalog.AddDirAt | src/apps/system.rs:32-33 | an unreadable directory contributes nothing |
| SystemCatalog.AddDirsAt | src/apps/system.rs:25-47 | the directories contribute in order |
| SystemCatalog.ContributionAppend | src/apps/system.rs:39-45 | contributions of consecutive runs of entries concatenate |
| SystemCatalog.ContributionProvenance | src/apps/system.rs:40-45 | a contributed handler names an entry declaring that mime |
| EarlyMimeTypes.Verify | src/mime_types.rs:23-34 | accepted iff the text has the `x-scheme-handler/` prefix, is a custom mime or is in the known table; accepted text is returned unchanged; otherwise `BadMime(mime)` |
| EarlyMimeTypes.CustomBeyondSchemes | src/mime_types.rs:8-12 | the only custom mime without the scheme prefix is `inode/directory` |
| EarlyMimeTypes.VerifyWithoutTable | src/mime_types.rs:23-34 | with an empty table only scheme handlers and `inode/directory` pass |
| EarlyMimeTypes.VerifySchemeAnyTable | src/mime_types.rs:24 | every scheme handler passes, whatever the table |
| EarlyMimeTypes.FromFile | src/mime_types.rs:14-21 | an `application/octet-stream` guess is ambiguous; any other guess is returned |
| MimeTypes.FromPath | src/common/mime_types.rs:32-39 | a detector error propagates; `application/octet-stream` gives `Ambiguous(path)`; any other result is returned |
| MimeTypes.FromArg | src/common/mime_types.rs:17-27 | a URL gives `x-scheme-handler/<scheme>`; anything else is classified as a path |
| MimeTypes.FromArgNeverOctetStream | src/common/mime_types.rs:17-39 | a classified argument is never `application/octet-stream` |
| MimeTypes.AmbiguousOnlyForPaths | src/common/mime_types.rs:17-39 | `Ambiguous` arises exactly for a non-URL whose detected type is `application/octet-stream`, and names that argument |
| MimeTypes.FromUserInput | src/common/mime_types.rs:48-59 | a leading `.` looks up the extension, a miss giving `Ambiguous(s)`; other input goes through the mime parser, a failure giving `BadMimeType` |
| MimeTypes.UserInputExamples | src/common/mime_types.rs:67-77 | `.pdf` gives `application/pdf`, `image/jpeg` is accepted, `image//jpg` and `image` are rejected |
| RegexApps.CompileRegex | src/apps/regex.rs:28-34 | exec and terminal copied; fails with `BadRegex` iff the pattern set does not compile |
| RegexApps.Populate | src/apps/regex.rs:108-116 | at most one handler per configured one, each a compiled configured handler |
| RegexApps.PopulateIsFilter | src/apps/regex.rs:108-116 | populate keeps exactly the compiling handlers, in configuration order |
| RegexApps.PopulateAllCompile | src/apps/regex.rs:108-116 | when every set compiles nothing is dropped |
| RegexApps.CompileAll | src/apps/regex.rs:28-34 | each handler compiled, position by position |
| RegexApps.GetHandler | src/apps/regex.rs:118-125 | a handler is found iff some handler matches; it is the first matching one in list order |
| RegexApps.EntryRunsLikeAny | src/apps/regex.rs:81-91 | the made-up entry (empty name, file name and mimes) launches exactly like any entry with the same exec and terminal flag |
| RegexApps.Open | src/apps/regex.rs:94-96 | the made-up entry is executed in open mode |
| RegexApps.VideoLinkExample | src/apps/regex.rs:134-177 | the module's test: a video URL selects the handler, an unrelated URL selects none |

## Left out

- File I/O is not modelled: opening and writing `mimeapps.list`, `atomic_save`, reading descriptor files and `read_dir`. Each is an input or an output value, or an `Io` error passed in. A failed `save` is not modelled, so the mutators always report the saved text.
- The pest grammar `ini.pest` and `freedesktop_entry_parser` are not part of this model. The readers take their token sequences (`Ini.Line`, `DesktopEntries.Attr`).
- `shlex::split`, `Mime::from_str`, `Handler::from_str`, the URL parser, `MimeDetective`, the `mime_db` and extension tables, and the regex engine are oracles. The model does not re-implement them.
- DesktopEntries.ReplaceCodes: the joined arguments are inserted literally. The `regex` crate's `replace_all` reads a `&str` replacement as a template, expanding `$$`, `$1`, `$name` and `${name}`, so an argument containing `$` gives different text in the source. Its template syntax differs between `regex` versions, and `Cargo.lock` is not part of this model.
- DesktopEntries.SubstituteEmbedded, DesktopEntries.SubstituteEmbeddedAnywhere, DesktopEntries.ReplaceAtCode and DesktopEntries.ReplaceOneCode match the source only for arguments without `$`, for the reason just given.
- `shlex::split(..).unwrap()` is assumed to succeed, because the oracle returns a token list. `Vec::remove(0)` on an empty token list is modelled as a panic.
- Spawning is `Env.spawnOk`. Standard-output redirection for non-terminal entries is not modelled, because it has no observable effect in the model.
- `Config::load` (confy file I/O) and `Config::select` (a child process) are parameters: a `Result<Config, Error>` and a selector function.
- `Handler::resolve`, `get_path`, the XDG lookup behind `get_entry`, and XDG base-directory errors are not modelled. Display names come from an `entryName` function.
- `show_handler`, `print`, `list_handlers`, the CLI (`src/cli.rs`, `src/main.rs`, `src/autocomplete.rs`, `src/common/db.rs`), notifications (`src/utils.rs`) and `src/common/path.rs` are not modelled. They are printing and glue.
- `src/systemapps.rs` is not part of this model: it is a parallel `rayon`/`DashMap` variant of the same fold.
- Mime keys are their essence strings. `sorted` on keys is lexicographic order on those strings (`Strings.LexLe`).
- The `categories` field of a descriptor is not modelled, because no core operation reads it.
- EarlyMimeApps.Populate: `src/mimeapps.rs` reads `entry.file_name`, but the early `DesktopEntry` of `src/common.rs` has no such field. The model takes the scanned path's file name.
- EarlyMimeApps.Accept: when the early reader rejects a descriptor with an `anyhow` message, the model's error is `InvalidEntry`. When `read_to_string` or the parse fails, the error passed in propagates.
- `src/error.rs` has no variant for a failed regex compile; the model uses `BadRegex`. The early `Error::NotFound` and `Error::Ambiguous` carry no value; the model names them `NoHandler` and `AmbiguousGuess`.
- MimeTypes.FromArg: the URL branch's `Mime::from_str(..).unwrap()` is taken to succeed on `x-scheme-handler/<scheme>`, so a panic there is not modelled.
- The early `SystemApps::get_handlers` and `get_handler` (src/mimeapps.rs:186-192) are `SystemCatalog.GetHandlers` and `SystemCatalog.GetHandler`, because their code is the same as in src/apps/system.rs.
