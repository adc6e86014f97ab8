# vcpkg message catalogue, `format-manifest` and `use`: a Dafny model

This project models three pieces of vcpkg and proves properties about them.

- **The localized message catalogue** (`messages.dfy`, module `Messages`).
  - At start-up, every message registers three strings: its name, its default English format string, and a comment for translators.
  - The catalogue stores these in parallel columns. A fourth column holds the localized strings.
  - The `MessageContext` class holds these columns as fields, and its methods update them in place:
    - registration appends one row and returns its index;
    - initialization runs once, sizes the localized column and aborts on a duplicate name;
    - loading a locale file's JSON object overwrites the translations of the names it lists;
    - a lookup returns the translation when there is one, else the default string.
  - Also modelled: the clamping of a byte count to one write call's limit, and the name of a locale file.
- **`vcpkg format-manifest`** (`format_manifest.dfy`, module `FormatManifest`).
  - The command reads the files given on the command line and, with `--all`, every port directory.
  - A `Planner` object collects the files that parsed into write jobs, and sets an error flag for those that did not.
  - It then writes every job. Before writing, it checks that the reformatted manifest parses back to the same port. A `CONTROL` file it converted is removed.
  - It exits with failure exactly when some read failed. A port directory holding both files, a failed round trip, or a failed write or removal stops the command at once.
  - The file system, the parsers and the serializer are functions of an `Env` value. The method `PerformAndExit` runs the source's loops and is proved equal to the function `Run`.
- **The `use` command of vcpkg-ce** (`use_command.dfy`, module `UseCommand`).
  - `run` is a chain of early returns: no inputs, a `--version` count mismatch, a failed selection, a declined confirmation, a failed activation.
  - The model records each message and each call to a collaborator, in order.
  - The selection map (a JavaScript `Map` built from `[name, version]` pairs) is an ordered association list. It is proved to keep one entry per name, at the name's first position, with the version of its last occurrence.

`wrappers.dfy` holds the shared `Option`, `Result` and `Distinct` definitions.

`run` builds the project's registry resolver (`ce/ce/cli/commands/use.ts:43-44`) before it checks the `--version` count (lines 46-49). So a run with a mismatched count records a `BuildResolver` call before its error, as `UseCommand.RunSelectsIff` states.

## Model

| member | source | states |
|---|---|---|
| Messages.SizeToWrite | src/vcpkg/base/messages.cpp:35 | The count passed to one write call is at most MAXDWORD and at most the size. It equals the size when the size fits in a DWORD, and is positive when the size is. |
| Messages.WriteChunksCover | src/vcpkg/base/messages.cpp:72-81 | The write loop's successive clamped counts are each in (0, MAXDWORD] and add up to the whole size, so clamping loses no bytes. |
| Messages.LocaleFileName | src/vcpkg/base/messages.cpp:246-251 | The file name is `messages.` followed by the language and `.json`, 14 characters longer than the language. |
| Messages.LocaleFileNameRoundTrip | src/vcpkg/base/messages.cpp:246-251 | The language can be read back from the file name, and only that language's name has that shape, so distinct languages get distinct files. |
| Messages.Resize | src/vcpkg/base/messages.cpp:188 | `vector::resize` keeps the first n strings and pads with empty strings to length n. |
| Messages.NameSetCardinality | src/vcpkg/base/messages.cpp:191-192 | The set of names is never larger than the column, and is as large exactly when no name is repeated. So the size test detects duplicates both ways. |
| Messages.FindFirstDuplicate | src/vcpkg/base/messages.cpp:195-212 | The nested scan finds a pair exactly when some name is repeated. The pair is the smallest index whose name recurs, with the first later index holding that name. |
| Messages.Unlocalized | src/vcpkg/base/messages.cpp:222-233 | The debug list has at most one entry per registered message. |
| Messages.UnlocalizedMembers | src/vcpkg/base/messages.cpp:228-232 | The debug list holds exactly the registered names missing from the locale map, at most one entry per registered message. |
| Messages.UnlocalizedDistinct | src/vcpkg/base/messages.cpp:222-233 | With distinct names (which `Initialize` has established by the time a locale is loaded), no name appears twice in the debug list. |
| Messages.MessageContext.constructor | src/vcpkg/base/messages.cpp:152-168 | The table starts with empty columns and is not initialized. |
| Messages.MessageContext.Register | src/vcpkg/base/messages.cpp:273-281 | Appends one row to the three registered columns and returns its index. The getters then return the registered name, format string and comment at that index; nothing else changes. |
| Messages.MessageContext.Initialize | src/vcpkg/base/messages.cpp:179-216 | A second call is fatal and changes nothing. A first call sizes the localized column to all empty strings, so every lookup yields the default. It succeeds exactly when the names are distinct, and otherwise reports the first duplicate pair; the final unreachable check is proved unreachable. |
| Messages.MessageContext.LoadFromMessageMap | src/vcpkg/base/messages.cpp:217-244 | Every name the map lists gets its translation, and the other entries keep their value. A non-string entry is fatal at the first such index, after the earlier rows were overwritten. When debugging, the names without a translation are listed. |
| Messages.MessageContext.InitializeWithLocale | src/vcpkg/base/messages.cpp:253-269 | Initializes, then reads `messages.<language>.json`. A second initialization or a duplicate name fails at initialization. Otherwise an unparsable file or a non-object file fails with that error, naming that file. An object file starts up exactly when every entry for a registered name is a string; else it fails at a non-string entry's index. On success, every lookup yields the non-empty translation from the file, else the default string, and the debug list is that of the loaded map. |
| Messages.MessageContext.GetFormatString | src/vcpkg/base/messages.cpp:283-297 | Defined only when the localized and default columns have the same length and the index is in range. It returns the translation when non-empty, else the default. |
| Messages.MessageContext.GetMessageName | src/vcpkg/base/messages.cpp:298-303 | Returns the registered name, defined exactly for in-range indices. |
| Messages.MessageContext.GetDefaultFormatString | src/vcpkg/base/messages.cpp:304-309 | Returns the registered default format string, defined exactly for in-range indices. |
| Messages.MessageContext.GetLocalizationComment | src/vcpkg/base/messages.cpp:310-315 | Returns the registered comment, defined exactly for in-range indices. |
| FormatManifest.Join | src/vcpkg/commands.format-manifest.cpp:229 | `base / rel` appends a relative path's components, and an absolute right-hand side replaces the base. |
| FormatManifest.Child | src/vcpkg/commands.format-manifest.cpp:246-247 | `dir / name` has file name `name` and parent `dir`. |
| FormatManifest.ArgumentPath | src/vcpkg/commands.format-manifest.cpp:227-230 | A relative command-line path is resolved against the original working directory; an absolute one is kept. |
| FormatManifest.ReadManifest | src/vcpkg/commands.format-manifest.cpp:26-63 | Succeeds exactly when the text is JSON, an object and a valid manifest. The job then formats the file in place and keeps its original text. |
| FormatManifest.ReadControlFile | src/vcpkg/commands.format-manifest.cpp:65-95 | Succeeds exactly when the text parses into paragraphs that form a valid port. The job then writes `vcpkg.json` beside the `CONTROL` file and remembers the `CONTROL` file as its original. |
| FormatManifest.ReadArgument | src/vcpkg/commands.format-manifest.cpp:225-240 | A file named exactly `CONTROL` is converted into the sibling `vcpkg.json`; any other file is formatted in place. |
| FormatManifest.ArgumentReads | src/vcpkg/commands.format-manifest.cpp:225-240 | One read per command-line file. |
| FormatManifest.ArgumentReadsAt | src/vcpkg/commands.format-manifest.cpp:225-240 | The i-th read is the read of the i-th command-line file. |
| FormatManifest.Successes | src/vcpkg/commands.format-manifest.cpp:218-223 | The job list is never longer than the list of reads. |
| FormatManifest.SuccessesAreTheOkReads | src/vcpkg/commands.format-manifest.cpp:218-223 | The job list holds exactly the results of the successful reads. |
| FormatManifest.AppendAttempt | src/vcpkg/commands.format-manifest.cpp:218-223 | One more read appends its job when it succeeded, or sets the error flag when it failed. |
| FormatManifest.Planner.constructor | src/vcpkg/commands.format-manifest.cpp:201 | The job list starts empty and the error flag starts false. |
| FormatManifest.Planner.AddFile | src/vcpkg/commands.format-manifest.cpp:218-223 | A successful read appends its job and leaves the flag alone. A failed read sets the flag and queues nothing. |
| FormatManifest.OpenForWrite | src/vcpkg/commands.format-manifest.cpp:97-175 | Nothing is written unless the serialized manifest parses back to the same port and the write succeeds. The job succeeds exactly when the round trip, the write and (for a conversion) the removal of the original all succeed. Its only changes are writing the target and, for a conversion, removing the original. |
| FormatManifest.ReadArgumentFiles | src/vcpkg/commands.format-manifest.cpp:225-240 | After the loop over the arguments, the job list and error flag are those of the argument reads, in order. |
| FormatManifest.ReadPortDirectory | src/vcpkg/commands.format-manifest.cpp:246-263 | Reports a conflict exactly when the directory holds both files. Otherwise it adds the manifest read, then the CONTROL read when converting, to the planner. |
| FormatManifest.ReadPortDirectories | src/vcpkg/commands.format-manifest.cpp:242-265 | Returns the first conflict when the scan hits one. Otherwise the planner holds the earlier reads followed by every directory's reads. |
| FormatManifest.PortReads | src/vcpkg/commands.format-manifest.cpp:244-264 | The `--all` scan fails only with a directory from the list that holds both files. |
| FormatManifest.PortReadsStep | src/vcpkg/commands.format-manifest.cpp:244-264 | Scanning one more directory either stops at its conflict or appends its reads. |
| FormatManifest.PortReadsStopAtConflict | src/vcpkg/commands.format-manifest.cpp:251-254 | Once a directory conflicts, no later directory changes the outcome. |
| FormatManifest.PortReadsOkIffNoConflict | src/vcpkg/commands.format-manifest.cpp:244-254 | The `--all` scan goes through exactly when no port directory holds both `vcpkg.json` and `CONTROL`. |
| FormatManifest.PortReadsFirstConflict | src/vcpkg/commands.format-manifest.cpp:244-254 | A failed scan names the first directory holding both files. |
| FormatManifest.DirectoryReadsAreThePortReads | src/vcpkg/commands.format-manifest.cpp:256-263 | The reads made in one directory are exactly its existing `vcpkg.json`, and its existing `CONTROL` when converting. |
| FormatManifest.PortReadsReadEveryPortFile | src/vcpkg/commands.format-manifest.cpp:244-264 | In `--all` mode every existing `vcpkg.json` is read, and every existing `CONTROL` file when converting. |
| FormatManifest.PortReadsReadOnlyPortFiles | src/vcpkg/commands.format-manifest.cpp:244-264 | The `--all` loop reads nothing else. Each read is a listed directory's existing manifest or, only when converting, its existing `CONTROL` file. |
| FormatManifest.PortReadsInPlaceWithoutConvert | src/vcpkg/commands.format-manifest.cpp:256-263 | Without `--convert-control`, every successful `--all` read formats a manifest in place. |
| FormatManifest.PortReadsFailIff | src/vcpkg/commands.format-manifest.cpp:256-263 | Some `--all` read fails exactly when some listed directory has a port file it reads that fails to parse. Without converting, only manifests count. |
| FormatManifest.FailedPortReadHasItsDirectory | src/vcpkg/commands.format-manifest.cpp:256-263 | A failed `--all` read belongs to a listed directory whose port file fails to parse. |
| FormatManifest.FailingPortFileIsRead | src/vcpkg/commands.format-manifest.cpp:256-263 | A listed directory's port file that fails to parse makes some `--all` read fail. |
| FormatManifest.WriteJobs | src/vcpkg/commands.format-manifest.cpp:267-270 | Writing the jobs makes at most two changes per job (the write and one removal). A fatal error comes from a write or the round-trip check, never from the argument or directory checks. |
| FormatManifest.WriteAll | src/vcpkg/commands.format-manifest.cpp:267-270 | The write loop performs the jobs in order and stops at the first fatal error. |
| FormatManifest.WriteJobsStopAtFatal | src/vcpkg/commands.format-manifest.cpp:267-270 | After a fatal write, no later job has any effect. |
| FormatManifest.WriteJobsWritesEveryJob | src/vcpkg/commands.format-manifest.cpp:267-270 | When no write is fatal, every job's target is written with its serialized port. |
| FormatManifest.WriteJobsEffectsComeFromJobs | src/vcpkg/commands.format-manifest.cpp:156-174 | Every change on disk is some job's target write, or the removal of a job's original file when that differs from its target. |
| FormatManifest.Run | src/vcpkg/commands.format-manifest.cpp:196-281 | The command warns exactly when `--convert-control` is given without `--all`. It aborts for a missing file argument exactly when neither `--all` nor a file was given. A conflict abort happens only with `--all`, names a port directory holding both files, and changes nothing on disk. |
| FormatManifest.PerformAndExit | src/vcpkg/commands.format-manifest.cpp:196-281 | The command's loops, planner and write phase produce exactly the warning, the changes on disk and the exit that `Run` defines. |
| FormatManifest.RunWithoutFilesOrAll | src/vcpkg/commands.format-manifest.cpp:211-214 | Without `--all` and without files, the command fails before reading anything. |
| FormatManifest.ConvertControlWithoutAllOnlyWarns | src/vcpkg/commands.format-manifest.cpp:206-209 | Without `--all`, `--convert-control` only adds a warning and otherwise changes nothing. |
| FormatManifest.RunConflictAborts | src/vcpkg/commands.format-manifest.cpp:251-254 | With `--all`, a directory holding both files aborts the command, naming the first such directory, before anything is written. |
| FormatManifest.RunWritesEveryReadArgument | src/vcpkg/commands.format-manifest.cpp:267-281 | An unaborted run writes every command-line file that parsed, even when other files failed. Without `--all`, it exits with failure exactly when some argument failed to parse. |
| FormatManifest.ArgumentReadsFailIff | src/vcpkg/commands.format-manifest.cpp:225-240 | Some argument read fails exactly when some command-line file fails to parse. |
| FormatManifest.AnyFailedAppend | src/vcpkg/commands.format-manifest.cpp:218-223 | The error flag after the argument loop and the `--all` loop is set exactly when either loop set it. |
| FormatManifest.OkReadsAreWritten | src/vcpkg/commands.format-manifest.cpp:267-270 | When no write is fatal, every successful read has its target written with its serialized port. |
| FormatManifest.RunAllWritesEveryPortManifest | src/vcpkg/commands.format-manifest.cpp:242-270 | With `--all`, an unaborted run writes the manifest of every listed directory whose `vcpkg.json` parses, even when other files failed. |
| FormatManifest.RunAllFailsIff | src/vcpkg/commands.format-manifest.cpp:242-281 | With `--all`, an unaborted run exits with failure exactly when a command-line file, or a port file it reads, fails to parse. Without `--convert-control`, those port files are the existing manifests only. |
| FormatManifest.RunInPlaceRemovesNothing | src/vcpkg/commands.format-manifest.cpp:164-174 | Without conversion and without a `CONTROL` argument, the command only writes files and never removes one. |
| UseCommand.VersionFor | ce/ce/cli/commands/use.ts:51 | An input's version is its `--version` value when present and non-empty, else `*`. |
| UseCommand.SelectionEntries | ce/ce/cli/commands/use.ts:51 | One `[name, version]` pair per input, in input order. |
| UseCommand.Insert | ce/ce/cli/commands/use.ts:51 | `Map.set` adds at most one entry. |
| UseCommand.InsertKeys | ce/ce/cli/commands/use.ts:51 | `Map.set` keeps the key order and appends a new key at the end. |
| UseCommand.InsertNewKey | ce/ce/cli/commands/use.ts:51 | `Map.set` of a key not yet present appends its entry at the end. |
| UseCommand.InsertLookup | ce/ce/cli/commands/use.ts:51 | `Map.set` gives the key its new value and leaves every other key's value unchanged. |
| UseCommand.MapFromEntries | ce/ce/cli/commands/use.ts:51 | `new Map(entries)` has no more entries than the list, and is non-empty when the list is. |
| UseCommand.FirstOccurrencesDistinct | ce/ce/cli/commands/use.ts:51 | The keys in order of first appearance are distinct, and they are the same names as the inputs. |
| UseCommand.MapFromEntriesSemantics | ce/ce/cli/commands/use.ts:51 | `new Map(entries)` has the entries' keys in order of first appearance. Each key holds the value of its last entry. |
| UseCommand.MapFromDistinctEntries | ce/ce/cli/commands/use.ts:51 | With distinct keys, the map is exactly the list of entries. |
| UseCommand.LastValueAt | ce/ce/cli/commands/use.ts:51 | The value kept for an entry's key is that of the key's last occurrence. |
| UseCommand.SelectionsPairInputsWithVersions | ce/ce/cli/commands/use.ts:45-51 | For each input, the selector is asked for the version given with the input's last occurrence. With distinct inputs, the map is exactly the input-version pairs. |
| UseCommand.SelectionsKeys | ce/ce/cli/commands/use.ts:51 | The selection map lists each input name once. |
| UseCommand.Run | ce/ce/cli/commands/use.ts:37-69 | Every run records something. A run with inputs first builds the registry resolver. A successful run had inputs and an acceptable version count, and ends by logging the activation. |
| UseCommand.RunWithoutInputs | ce/ce/cli/commands/use.ts:38-41 | No inputs: an error and `false`, before any collaborator is called. |
| UseCommand.RunSelectsIff | ce/ce/cli/commands/use.ts:43-52 | Selection is attempted exactly when there are inputs and the version count is zero or equals the input count. It gets the selection map, the merged resolver and a count of 1. A mismatch fails after building the resolver. |
| UseCommand.RunStopsWhenSelectionFails | ce/ce/cli/commands/use.ts:52-55 | A falsy selection returns `false`, with nothing shown or activated. |
| UseCommand.RunStopsWhenDeclined | ce/ce/cli/commands/use.ts:57-60 | A declined confirmation warns and returns `false` without activating. |
| UseCommand.RunSucceedsIff | ce/ce/cli/commands/use.ts:37-69 | `run` returns true exactly when there are inputs, the version count is acceptable, selection yields artifacts, the user confirms, and activation succeeds. Activation is never forced, and gets the command line's options and the selected artifacts. |

## Left out

- Console and file output, colours, UTF-16 conversion and the Windows and POSIX write calls: output is not modelled. Only the clamping of the count (`size_to_write`) and the loop's chunking are kept. Each write is assumed to write everything it was given.
- Messages.WriteChunksCover: assumes each write call writes all the bytes it was asked to. The source's loop also copes with partial writes, which this model does not follow.
- `internal_vformat` (messages.cpp:317-342), `println_warning` and `println_error` (344-352), and the `REGISTER_MESSAGE` declarations: formatting with arguments, printing and the concrete message texts are outside this model.
- Reading and JSON-parsing the locale file: `InitializeWithLocale` takes the parsed document as the result of a function parameter.
- Messages.MessageContext.InitializeWithLocale: the locale directory (`locale_base`) is folded into `readLocaleFile`, which is given only the file name. So the unparsable and non-object errors name `messages.<language>.json`, not the full path under `locale_base` that the source prints.
- Messages.MessageContext.Initialize: the diagnostics printed for a duplicate name are not modelled; only the pair of indices is returned.
- The process-wide singleton (`messages()`) and thread-safety: the model has one `MessageContext` object and no concurrency.
- The JSON, manifest and CONTROL parsers, the serializer, `fs.exists`, `read_contents`, `write_contents`, `remove` and the port directory listing are collaborator functions in `Env`. Their internals are not modelled. Equality of parsed ports is plain value equality.
- Paths are lists of components with an absolute flag. There is no normalisation, root names or platform separators.
- Debug printing and every error message's wording are left out. Fatal exits are `Aborted` results carrying their reason, and `exit_maybe_upgrade` is treated like any other fatal exit.
- A failure of `read_contents` itself (fatal in the source) is not modelled: reading a file always yields its text.
- A failure to list the port directories (`get_directories_non_recursive` exits on error, commands.format-manifest.cpp:244) is not modelled: `env.portDirectories` is always available.
- The artifact selector, the confirmation display, the activation engine, registry resolution and the project manifest loading of vcpkg-ce are collaborator functions. Version matching, conflict detection with already-active artifacts and partial activation live inside them and are not modelled.
- Asynchrony in `use`: each awaited call is modelled as an ordinary call that returns a value.
