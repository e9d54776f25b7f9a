# Launcher verification

This project models the parts of the launcher that edit other programs' files, keep
records across crashes, or decide things by hand-written scanning, and proves what
those parts are relied on for. Each file models one part of the repository; methods
follow the source's loops and classes and are proved against functions, and the lemmas
say what those functions guarantee.

- **The patch file** (`cordis.patch.yml`). The launcher edits this YAML file line by
  line. `PatchLines.dfy` states what each loop computes on the lines; `PatchFile.dfy`
  holds the loops themselves and the file they rewrite. The meaning of a file is its
  list of top-level entries (`PatchDoc.Entries`): `PatchOps.dfy` shows that every
  operation, and every run of operations, acts on that list and keeps the file a valid
  top-level array. `PatchTheorems.dfy` draws the consequences (toggles as a map, the
  last sync wins, notes survive), `PatchBytes.dfy` what comes back byte for byte,
  `SkinNames.dfy` that what is printed is what is parsed. `PatchLimits.dfy` and
  `PatchSyncs.dfy` leave the editable files: they say, for files of any shape, which
  toggles are read after each toggle operation and each sync, and exactly when an
  operation misses what it is for.
- **Bundle load order** (`LoadOrder.dfy`): the stable solver with its cycle fallback is
  complete, idempotent, and keeps what it need not move.
- **Resumable download** (`Download.dfy`): every state of the partial file and of the
  destination, whatever the server, the disk or a crash does; servers that keep to
  sections 14.2, 15.3.7 and 15.5.17 of RFC 9110 get the content through.
- **Install job ledger** (`Jobs.dfy`): rows with ids never given out twice, over runs.
- **Secret redactor** (`Redact.dfy`, `RedactShapes.dfy`): which text is masked, said on
  the shapes of the secrets, when a second pass is the identity, and on which text the
  scan completes.
- **Crash diagnosis** (`Crash.dfy`): the fold of per-line rules, the greedy match of
  user signatures, and what a user signature can and cannot change.
- **Build approvals** (`Pnpm.dfy`): the one-line edit of `pnpm-workspace.yaml`.
- **Skill directories** (`Skills.dfy`): landing files one by one, `SKILL.md` last.
- **Fresh names** (`FreshNames.dfy`, `SkinRows.dfy`): the suffix search terminates and
  is fresh.

`Basics.dfy`, `TextLines.dfy`, `PatchText.dfy` and `PatchBlocks.dfy` hold what these
share: optional values and bytes, trimming, splitting and joining on line feeds, and the
blocks the launcher writes.

Where the code does not do what its comments, names or documentation suggest, the model
follows the code, and a lemma says so:

- Enabling a row does not end its disablement when its `disabled: true` line carries a
  remark: the reader strips remarks, the removal does not (`PatchLimits.EnableWorksIff`,
  `RemarkDefeatsEnable`).
- Enabling one row can disable the row above it when its flag line is doubled
  (`PatchLimits.EnableSparesOthersIff`, `DoubledFlagMovesUp`).
- A column-0 comment inside a launcher's insert block makes the next sync leave rows
  without a head, which the launcher can no longer edit (`PatchSyncs.SyncReadableIff`,
  `SyncOrphansRows`).
- The skin block is recognised by the prefix `skin-`, but the id `skin` alone is also
  given out, to a package named `dsh-skin` (`PatchTheorems.LastSkinSyncWinsIff`,
  `BareSkinStays`).
- A config line reading `id: skin-…`, such as an environment variable `id` gives, makes a
  skin sync remove the MCP block (`PatchSyncs.SkinSyncKeepsMcpIff`, `SkinSyncDropsMcp`,
  `IdVariableDropsMcp`).
- A repeated sync eats a blank line (`PatchBytes.SyncTwiceIff`, `BlankLineEaten`).
- `resumed` stays true when a 206 was followed by a full 200
  (`Download.ResumedAccurateIff`, `ResumedAfterWhole`).
- The tail of error output can hold more than eight lines when one appended text holds
  several (`Jobs.TailCapIff`, `NineLinesOverflow`); the readers of child output append
  single lines (crates/dsh-adapter/src/lib.rs:911-916), for which it never does.
- A `bare` capture is documented as the first run of name characters behind the last
  needle; the code gives no name when a colon or another separator comes first
  (`Crash.BareIsFirstRunIff`, `ColonEndsCapture`).
- A user signature can take over a built-in diagnosis of the same kind and name from an
  earlier line (`Crash.BuiltInUnshadowedIff`, `ExtraShadows`), and can take the generic
  error away (`Crash.KeyLostIff`, `ClaimDropsError`).
- An edit inside an existing `allowBuilds:` block of a CRLF file adds a `\r` to every
  line (`Pnpm.BytesKeptIff`, `CrlfWidensAnchor`), and an entry nested under another key
  counts as approved (`Pnpm.ApprovedAtTopIff`, `NestedApproval`).
- Redacting twice is not redacting once when an `authorization` value is followed by a
  further word (`Redact.RedactIdempotentIff`, `HeaderAbsorbsWord`), and the scan cannot
  complete on text that has a non-ASCII character outside the masked values
  (`Redact.SliceableIff`, `AccentStops`).
- An update over an installed skill passes through states that hold `SKILL.md` and lack
  other files (`Skills.LandSafeIff`, `UpdateExposesGap`).
- A bundle name repeated in the load order can be moved although nothing is violated
  (`LoadOrder.RepeatedNameMoves`).

## Model

| member | source | states |
|---|---|---|
| PatchFiles.PatchFile.ReadPatchState | crates/dsh-adapter/src/lib.rs:1188-1220 | the reading loop collects exactly the ids whose row line is followed by a true, respectively false, flag line |
| PatchFiles.PatchFile.DisableRow | crates/dsh-adapter/src/lib.rs:1378-1383 | on an editable file exactly one entry, the row's disabling toggle, is added, and none when the row is disabled already |
| PatchFiles.PatchFile.EnableRow | crates/dsh-adapter/src/lib.rs:1389-1401 | the row's disabling entries go; without one, a forcing entry is added unless it is there |
| PatchFiles.PatchFile.RemoveRowBlocks | crates/dsh-adapter/src/lib.rs:1405-1421 | every toggle entry of the given ids goes, every other entry stays, in order |
| PatchFiles.PatchFile.SetPluginEnabled | crates/dsh-adapter/src/lib.rs:571-604 | succeeds exactly for a non-empty list of writable ids; on an editable file the ids before the first unwritable one (all of them on success) then read as disabled exactly when disabling was asked for, and every other id keeps what was read of it |
| PatchFiles.PatchFile.SyncMcpPatch | crates/dsh-adapter/src/content.rs:889-905 | launcher MCP entries are replaced by one entry for the enabled records; a record that cannot be serialized leaves the file alone (which records give rows: `PatchTheorems.DisabledServerIgnored`, `EnabledServerAdds`) |
| PatchFiles.PatchFile.SyncSkinPatch | crates/dsh-adapter/src/content.rs:957-988 | launcher skin entries are replaced by one entry for the mounted skins, or the placeholder is restored |
| PatchFiles.RemoveBlocksLoop | crates/dsh-adapter/src/lib.rs:1314-1342 | the index loop drops exactly the recognised pairs, and reports whether it dropped any |
| PatchFiles.RemoveInsertBlocks | crates/dsh-adapter/src/lib.rs:1431-1511 | the two block removers drop exactly the insert blocks with an owned line, up to the next column-0 line |
| PatchFiles.FindBlockEnd | crates/dsh-adapter/src/lib.rs:1439-1446 | the inner loop stops at the next line that is neither empty nor indented, or at the end |
| PatchFiles.RestorePlaceholderLoop | crates/dsh-adapter/src/lib.rs:1351-1374 | text with content is untouched; otherwise the first commented placeholder is revived or one is appended |
| PatchFiles.ReviveLoop | crates/dsh-adapter/src/lib.rs:1355-1368 | exactly the first commented placeholder is revived, and whether there was one is reported |
| PatchFiles.AppendBlockToText | crates/dsh-adapter/src/lib.rs:1265-1285 | the block ends up behind the old text, and a sole placeholder is commented out |
| PatchFiles.CommentOutPlaceholder | crates/dsh-adapter/src/lib.rs:1296-1309 | exactly the first placeholder line changes |
| PatchFiles.CompileSkinBlock | crates/dsh-adapter/src/content.rs:967-987 | the string-building loop yields the block of the packages with ids distinct within the sync |
| PatchFiles.CompileMcpBlock | crates/dsh-adapter/src/content.rs:861-904 | the string-building loop yields the block of all records, or nothing when one cannot be serialized |
| PatchText.AppendBlockLines | crates/dsh-adapter/src/lib.rs:1246-1285 | deciding on the trimmed comment-free text and deciding on the content lines are the same |
| PatchText.RestorePlaceholderLines | crates/dsh-adapter/src/lib.rs:1246-1374 | the same for restoring the placeholder |
| PatchDoc.RemoveBlocksRefines | crates/dsh-adapter/src/lib.rs:1314-1342 | removing pairs from the lines removes the toggle entries and keeps the file editable |
| PatchDoc.StripBlocksRefines | crates/dsh-adapter/src/lib.rs:1431-1511 | removing insert blocks from the lines removes the owned entries and keeps the file editable |
| PatchDoc.ReadPairsRefines | crates/dsh-adapter/src/lib.rs:1188-1220 | what is read as toggles is what the entries state |
| PatchDoc.AppendLinesRefines | crates/dsh-adapter/src/lib.rs:1260-1309 | appending adds the block's entries behind the old ones and leaves no active placeholder |
| PatchDoc.RestoreLinesRefines | crates/dsh-adapter/src/lib.rs:1344-1374 | restoring changes no entry and leaves a valid array |
| PatchBlocks.RowBlockRefines | crates/dsh-adapter/src/lib.rs:1237-1242 | a printed toggle row is one entry and reads back as the id and flag it was printed for |
| PatchBlocks.InsertBlockRefines | crates/dsh-adapter/src/content.rs:889-988 | a printed insert block is one entry, whatever its indented rows hold |
| PatchBlocks.McpRowsFacts | crates/dsh-adapter/src/content.rs:861-873 | compiled MCP rows are indented lines and mark their block as the launcher's, whatever the config holds |
| PatchOps.DisableRefines | crates/dsh-adapter/src/lib.rs:1376-1383 | disabling adds the row's toggle entry unless the row is disabled already |
| PatchOps.EnableRefines | crates/dsh-adapter/src/lib.rs:1385-1401 | enabling drops the row's disabling entries or force-enables it |
| PatchOps.RemoveRowsRefines | crates/dsh-adapter/src/lib.rs:1403-1421 | cleanup drops every toggle entry of the ids |
| PatchOps.SyncRefines | crates/dsh-adapter/src/content.rs:876-988 | a sync drops the launcher's entries of its kind and appends the new one |
| PatchOps.StepRefines | crates/dsh-adapter/src/lib.rs:1246-1421 | each operation commutes with reading the entries and keeps a valid array valid |
| PatchOps.RunRefines | crates/dsh-adapter/src/lib.rs:1188-1511 | any run of toggles, removals and syncs acts on the entries as the run of entry operations; a valid array stays one |
| PatchOps.DocIsOneOf | crates/dsh-adapter/src/lib.rs:1344-1350 | a valid file has the placeholder exactly when it has no entry, and beside entries no line at column 0 is a placeholder: never both, never neither |
| PatchOps.TemplateIsDoc | crates/dsh-adapter/src/lib.rs:1260-1263 | a template that ships the placeholder under whatever comments is a valid file without entries |
| PatchTheorems.TogglesOverRuns | crates/dsh-adapter/src/lib.rs:1314-1421 | over any run the toggles read back are the initial ones updated as a set of facts, whatever the syncs do |
| PatchTheorems.LastDecisionStands | crates/dsh-adapter/src/lib.rs:1376-1421 | the last disable, enable or removal of an id decides its state, whatever happens to other ids and to insert blocks afterwards |
| PatchTheorems.LastSyncWinsIff | crates/dsh-adapter/src/content.rs:876-905 | a second sync replaces the first exactly when it can recognise the first one's block |
| PatchTheorems.LastMcpSyncWins | crates/dsh-adapter/src/content.rs:876-905 | for MCP records the last sync always wins, at most one launcher block is left, and every other entry keeps its place |
| PatchTheorems.DisabledServerIgnored | crates/dsh-adapter/src/content.rs:889-905 | a disabled record, wherever it stands in the list and whatever its config, changes neither whether the sync works nor what it writes |
| PatchTheorems.EnabledServerAdds | crates/dsh-adapter/src/content.rs:861-905 | an enabled record adds exactly its own row lines at its place, or makes the sync fail when it cannot be serialized |
| PatchTheorems.McpRowReads | crates/dsh-adapter/src/content.rs:861-873 | the lines of one record: its id and name, and its config indented below them |
| PatchTheorems.LastSkinSyncWinsIff | crates/dsh-adapter/src/content.rs:912-988 | for skins the last sync wins unless the first one mounted a single skin whose id is the bare `skin` |
| PatchTheorems.BareSkinStays | crates/dsh-adapter/src/content.rs:912-988 | the failing family: a lone package `<scope>/dsh-skin` leaves its block in the file whatever is synced next |
| PatchTheorems.UnmountedSkinIgnored | crates/dsh-adapter/src/content.rs:957-970 | a disabled skin or one that comes with a bundle, wherever it stands in the list, changes nothing of the sync |
| PatchTheorems.MountedIff | crates/dsh-adapter/src/content.rs:957-970 | a package is mounted exactly when an enabled skin without a bundle has it |
| PatchTheorems.NotesSurvive | crates/dsh-adapter/src/lib.rs:1423-1475 | on any file whatever, every operation keeps every column-0 comment that does not read as a commented-out placeholder, in order |
| PatchBytes.ToggleRoundTripIff | crates/dsh-adapter/src/lib.rs:1246-1401 | disable then enable restores the bytes exactly when the text ends in a line feed, has content, and a sole placeholder is spelled `[]` with no look-alike comment before it |
| PatchBytes.SyncTwiceIff | crates/dsh-adapter/src/lib.rs:1431-1511 | repeating a sync changes no byte exactly when it compiles nothing or what it appends to does not end in two blank lines |
| PatchBytes.BlankLineEaten | crates/dsh-adapter/src/lib.rs:1265-1285 | the failing family: a disabled row above two blank lines loses one of them to the second sync |
| PatchBytes.RemovableIsRead | crates/dsh-adapter/src/lib.rs:1188-1342 | on any file, a pair the removal drops is one the reader counts |
| PatchLimits.RemoveReads | crates/dsh-adapter/src/lib.rs:1314-1342 | on any file, removal leaves exactly the toggles it does not recognise and those it forms of lines that become neighbours |
| PatchLimits.RemoveExactIff | crates/dsh-adapter/src/lib.rs:1314-1342 | on any file, removal takes exactly the targeted toggles exactly when it recognises all of them and forms none but toggles already read |
| PatchLimits.CreatesNoneIff | crates/dsh-adapter/src/lib.rs:1314-1342 | on any file, removal creates no toggle exactly when what it forms across removed pairs was read before |
| PatchLimits.DisableReads | crates/dsh-adapter/src/lib.rs:1376-1383 | on any file, disabling adds exactly the fact that the row is disabled |
| PatchLimits.EnableReads | crates/dsh-adapter/src/lib.rs:1385-1401 | on any file, the toggles read after enabling a row |
| PatchLimits.EnableWorksIff | crates/dsh-adapter/src/lib.rs:1188-1401 | on any file, enabling ends the disablement exactly when every disabling pair of the row is recognised and none is formed across the removed ones |
| PatchLimits.EnableSparesOthersIff | crates/dsh-adapter/src/lib.rs:1385-1401 | on any file, enabling a row leaves every other row's toggles alone exactly when it forms no new one |
| PatchLimits.RemarkDefeatsEnable | crates/dsh-adapter/src/lib.rs:1193-1325 | the failing family: a remark behind the flag leaves the row disabled |
| PatchLimits.DoubledFlagMovesUp | crates/dsh-adapter/src/lib.rs:1314-1401 | the failing family for doubled flags: enabling one row makes the row above it read as disabled |
| PatchSyncs.SyncReads | crates/dsh-adapter/src/lib.rs:1431-1511 | on any file, a sync keeps every toggle read before and adds exactly those it forms across removed blocks |
| PatchSyncs.StrippedPlainIff | crates/dsh-adapter/src/lib.rs:1431-1511 | on any file, what block removal leaves can be edited exactly when every chunk it keeps can |
| PatchSyncs.SyncReadableIff | crates/dsh-adapter/src/content.rs:876-988 | on any file, the launcher can edit the result of a sync exactly when every chunk the sync keeps can be edited or these hold the placeholder alone |
| PatchSyncs.NoteSplitsBlock | crates/dsh-adapter/src/lib.rs:1439-1446 | a column-0 comment ends an owned block, so that the rows below it are kept and cannot be edited |
| PatchSyncs.SyncOrphansRows | crates/dsh-adapter/src/content.rs:889-905 | the failing family: syncing no server over such a block leaves the note and headless rows |
| PatchSyncs.SkinSyncKeepsMcpIff | crates/dsh-adapter/src/lib.rs:1476-1511 | a skin sync keeps the MCP entry and the rest exactly when no enabled server's config has a line reading as an id in the skin namespace |
| PatchSyncs.SkinSyncDropsMcp | crates/dsh-adapter/src/lib.rs:1476-1511 | the failing family: a server whose config has a line `id: skin-…` anywhere, at any indentation, loses its entry to the next skin sync |
| PatchSyncs.IdVariableDropsMcp | crates/dsh-adapter/src/content.rs:829-873 | as the launcher itself writes it: a stdio server with an environment variable `id` whose value starts with `skin-` |
| SkinNames.ParseInsertNames | crates/dsh-adapter/src/lib.rs:1132-1158 | the loop with its insert-scope variable collects the names nested under insert rows |
| SkinNames.NamesIff | crates/dsh-adapter/src/lib.rs:1132-1158 | a name is read exactly when some line states it, deeper than the head of the insert block it stands in: the nearest head above it with no head and no closing line between |
| SkinNames.SpaceWidths | crates/dsh-adapter/src/lib.rs:1132-1141 | the indentation it compares is counted in bytes |
| SkinNames.SyncedSkinsReadBack | crates/dsh-adapter/src/content.rs:935-988 | for packages that are words, a name reads back after a skin sync exactly when the file mounts it without the launcher's skin blocks or an enabled skin without a bundle has it as its package |
| SkinRows.SkinIdsDistinct | crates/dsh-adapter/src/content.rs:973-984 | no id is given twice in one sync |
| SkinRows.SkinBlockOwned | crates/dsh-adapter/src/content.rs:912-984 | a sync's block is recognised by the next one unless its only id is `skin` |
| SkinRows.SkinIdIs | crates/dsh-adapter/src/content.rs:912-930 | the id of a package: scope and `dsh-` or `dsh-client-` dropped, then what is no id character at either end, and `skin-` put in front unless it is there or the name is just `skin` |
| FreshNames.FreshWithin | crates/launcher-core/src/instance.rs:701-713 | the search settles on a name not taken within one more try than names are taken |
| FreshNames.UniqueId | crates/launcher-core/src/instance.rs:701-713 | the loop terminates and its name is outside the list, the first free candidate |
| FreshNames.FreshName | crates/dsh-adapter/src/content.rs:973-984 | the same loop inside a skin sync: within one more try than names are used |
| FreshNames.CandidateInjective | crates/launcher-core/src/instance.rs:706-712 | different counters spell different names |
| LoadOrder.BuildEdges | crates/dsh-adapter/src/diagnostics.rs:189-206 | the edge list built from the constraint map, for every order of walking it |
| LoadOrder.EdgesIff | crates/dsh-adapter/src/diagnostics.rs:189-206 | between known names the edges are exactly the stated constraints |
| LoadOrder.SuggestOrder | crates/dsh-adapter/src/diagnostics.rs:186-228 | the nested loops over `remaining` compute the solver's order, tail included |
| LoadOrder.Sweep | crates/dsh-adapter/src/diagnostics.rs:208-220 | one in-place sweep removes exactly what is not blocked when it is met, and says whether anything was |
| LoadOrder.OrderViolations | crates/dsh-adapter/src/diagnostics.rs:148-184 | the report holds that `n` must precede `o` exactly when both stand in the order, a constraint of `n` lists `o` as loading later, and `n` does not stand first, and in the same way for what must follow; each as often as it is stated |
| LoadOrder.ReportIff | crates/dsh-adapter/src/diagnostics.rs:148-184 | a violation is reported exactly when the order breaks it and some constraint states it |
| LoadOrder.ReportedAsStated | crates/dsh-adapter/src/diagnostics.rs:148-184 | a broken violation is reported once for each time a constraint states it |
| LoadOrder.IndexOrder | crates/dsh-adapter/src/diagnostics.rs:148-160 | the index map holds the last position of each name |
| LoadOrder.ViolationsIff | crates/dsh-adapter/src/diagnostics.rs:148-184 | the report is empty exactly when every stated constraint between present names is met |
| LoadOrder.SuggestPermutes | crates/dsh-adapter/src/diagnostics.rs:186-228 | the suggestion is a permutation |
| LoadOrder.SuggestAnyWalk | crates/dsh-adapter/src/diagnostics.rs:186-228 | the suggestion does not depend on the order in which the constraint map is walked |
| LoadOrder.SuggestComplete | crates/dsh-adapter/src/diagnostics.rs:186-228 | the suggestion has no violation exactly when some permutation has none |
| LoadOrder.TailIsGreatest | crates/dsh-adapter/src/diagnostics.rs:222-227 | the unresolved tail is the greatest set in which every name has a predecessor in the set, in the order in which the names were given |
| LoadOrder.SuggestIdempotent | crates/dsh-adapter/src/diagnostics.rs:186-228 | suggesting twice is suggesting once, cycles or not |
| LoadOrder.UnchangedIff | crates/dsh-adapter/src/diagnostics.rs:186-228 | exactly which orders are returned unchanged |
| LoadOrder.ValidOrderKept | crates/dsh-adapter/src/diagnostics.rs:186-228 | distinct names that violate nothing are returned as they stand |
| LoadOrder.FreeKeepOrder | crates/dsh-adapter/src/diagnostics.rs:186-228 | names with no predecessor keep their relative order |
| LoadOrder.RepeatedNameMoves | crates/dsh-adapter/src/diagnostics.rs:148-228 | a repeated name shows that distinctness is needed for keeping valid orders |
| Download.Downloader.DownloadFile | crates/launcher-core/src/download.rs:63-163 | the retry loop passes through the modelled states and ends with the modelled result; it succeeds exactly when `Download.SucceedsIff` says, and a mismatch leaves no partial |
| Download.Downloader.Attempt | crates/launcher-core/src/download.rs:77-160 | one attempt either ends the call or leaves the state the next one starts from, with the offset the partial's length |
| Download.Downloader.Receive | crates/launcher-core/src/download.rs:125-160 | a streamed body, then promotion, failure or another attempt |
| Download.Downloader.Stream | crates/launcher-core/src/download.rs:112-145 | the chunk loop leaves the partial's bytes plus the body, and the offset is the partial's length |
| Download.Downloader.Promote | crates/launcher-core/src/download.rs:182-211 | hash, compare, replace and rename, with each way they can fail; a mismatch drops the partial and keeps the destination |
| Download.DestIntegrity | crates/launcher-core/src/download.rs:63-211 | with or without a checksum, against any server and disk fault: the destination only ever stays, gives way to the partial beside it, or becomes that whole partial, new bytes stand there only at the end of a successful call, that call's last request completed the file, any other end but a failed rename leaves the old bytes, and a checksum asked for holds |
| Download.LastRequestCompletes | crates/launcher-core/src/download.rs:63-163 | whatever the server, a successful call ends with a request answered by a complete body, appended from the offset it asked for unless it is a 200, or by a 416; the file is what that completes |
| Download.WholeOverVisits | crates/launcher-core/src/download.rs:19-20 | over any number of calls against any servers, each cut short anywhere, the destination holds its first bytes, nothing, or what a successful call completed |
| Download.Delivers | crates/launcher-core/src/download.rs:63-211 | against a conforming server the partial is a prefix of the content at every byte written, and success delivers the content |
| Download.SafeOverVisits | crates/launcher-core/src/download.rs:63-211 | the same over any number of calls, each stopped at any state |
| Download.ResumedIff | crates/launcher-core/src/download.rs:97-104 | `resumed` is reported exactly when some answer was a 206 or 416 |
| Download.ResumedAccurateIff | crates/launcher-core/src/download.rs:38-104 | `resumed` agrees with what its documentation says, that the last answer continued the partial, exactly when no 206 came before a final 200 |
| Download.ResumedAfterWhole | crates/launcher-core/src/download.rs:38-163 | the failing family: a conforming server that drops a continuation and then ignores the range |
| Download.Last200IsWhole | crates/launcher-core/src/download.rs:97-163 | a result whose last answer was a 200 is the whole body of that answer, to the last request the call made, whatever came before |
| Download.NotResumedIsWhole | crates/launcher-core/src/download.rs:97-163 | a result not marked resumed is the whole 200 body the last request got |
| Download.KeepsBytes | crates/launcher-core/src/download.rs:73-163 | unless the server restarts, a failed call other than a checksum mismatch keeps every byte the partial held |
| Download.SucceedsIff | crates/launcher-core/src/download.rs:63-163 | a call succeeds exactly when one of five attempts is answered by a complete file the disk and the checksum let through, and every one before it broke off, got no file, or could not connect while there was a partial |
| Download.FailsIff | crates/launcher-core/src/download.rs:63-211 | and it fails with a given error exactly when the attempts go on up to one whose answer, files or disk explain that error |
| Download.RequestsIff | crates/launcher-core/src/download.rs:73-110 | a call asks once for each attempt it reaches, from the length its partial has by then |
| Download.MismatchStartsOver | crates/launcher-core/src/download.rs:182-197 | after a mismatch the partial is gone and the destination is the old one, and the first request of the next call asks for byte 0 |
| Download.LastWrites | crates/launcher-core/src/download.rs:198-204 | a success, and a rename that fails, ends by removing the old destination first: between the two writes there is none |
| Jobs.JobStore.Create | crates/launcher-core/src/jobs.rs:236-256 | the new row carries an id above every id given out so far, waits, and holds each text in its own field; the other rows stay |
| Jobs.JobStore.ClaimNext | crates/launcher-core/src/jobs.rs:266-289 | the oldest waiting row of the instance is running afterwards, with its start, and is the one returned; nothing else changes |
| Jobs.JobStore.ListWaiting | crates/launcher-core/src/jobs.rs:328-347 | exactly the waiting rows, oldest first |
| Jobs.JobStore.WaitingCount | crates/launcher-core/src/jobs.rs:352-363 | the number of rows `list_waiting` would give |
| Jobs.JobStore.AppendStderr | crates/launcher-core/src/jobs.rs:410-432 | the row's tail is split, extended, cut to the last eight and joined; a missing row is an error and changes nothing |
| Jobs.JobStore.InterruptStaleRunning | crates/launcher-core/src/jobs.rs:468-498 | collecting ids and failing them one by one fails exactly the stale rows, and returns them |
| Jobs.JobStore.MarkRunning | crates/launcher-core/src/jobs.rs:385-395 | only the named row changes: running, with stage and start |
| Jobs.JobStore.UpdateProgress | crates/launcher-core/src/jobs.rs:399-407 | only the named row's stage and progress change |
| Jobs.JobStore.MarkDone | crates/launcher-core/src/jobs.rs:434-444 | only the named row changes: done, at 100, with an end |
| Jobs.JobStore.MarkFailed | crates/launcher-core/src/jobs.rs:446-454 | only the named row changes: failed, with error, exit code and end |
| Jobs.JobStore.Delete | crates/launcher-core/src/jobs.rs:514-522 | exactly the named row goes, if it is there |
| Jobs.JobStore.CancelIfWaiting | crates/launcher-core/src/jobs.rs:502-512 | only a waiting row is cancelled |
| Jobs.JobStore.ClearFinished | crates/launcher-core/src/jobs.rs:524-533 | exactly the terminal rows go, and their number is returned |
| Jobs.ApplyValid | crates/launcher-core/src/jobs.rs:199-200 | ids stay distinct and the counter never goes back, so an id is never given out again |
| Jobs.StampedOverRuns | crates/launcher-core/src/jobs.rs:385-512 | over any run running rows carry a start and terminal rows an end |
| Jobs.ClaimedOnce | crates/launcher-core/src/jobs.rs:262-289 | over any run no job id is handed out twice |
| Jobs.ClaimsIncrease | crates/launcher-core/src/jobs.rs:266-289 | with creations in clock order, the ids claimed for one instance strictly increase |
| Jobs.Reached | crates/launcher-core/src/jobs.rs:266-289 | a waiting job with k ahead of it is handed out by the (k+1)-th claim, unless some operation takes it out of the queue by id |
| Jobs.ClaimPopsQueue | crates/launcher-core/src/jobs.rs:266-363 | a claim takes the head of the listed queue and leaves the rest; it finds nothing exactly when the count is zero |
| Jobs.SweepClearsIff | crates/launcher-core/src/jobs.rs:456-498 | the sweep leaves no running row exactly when every start lies at or before the bound; other rows are untouched |
| Jobs.BootRecovery | crates/launcher-core/src/jobs.rs:456-498 | after any run whose starts are not later than now, the boot sweep fails every running row and changes no other |
| Jobs.TailOverRun | crates/launcher-core/src/jobs.rs:410-432 | over any run that leaves the row in the ledger its tail is the appends of its id alone, folded over what it held, whatever the other operations |
| Jobs.TailIsLastEight | crates/launcher-core/src/jobs.rs:410-432 | over any such run from an empty tail, with newline-free appends, the stored tail is exactly the last eight lines appended to that id |
| Jobs.TailCapIff | crates/launcher-core/src/jobs.rs:420-426 | the tail, missing or not, keeps to eight lines exactly when the appended text fits beside the lines kept |
| Jobs.NineLinesOverflow | crates/launcher-core/src/jobs.rs:420-426 | the failing family: one appended text of nine lines |
| Redact.RedactSecrets | crates/launcher-core/src/redact.rs:47-75 | the copying loop computes the redacted text, or fails where it would slice inside a character; what is masked in it: `RedactShapes.SecretMasked` and `RedactShapes.NothingMasked` |
| Redact.SecretAt | crates/launcher-core/src/redact.rs:55-66 | the span masked at an index, named keys before prefixes |
| Redact.ValueSpan | crates/launcher-core/src/redact.rs:102-125 | the value behind a separator, quoted or not |
| Redact.NamedSecret | crates/launcher-core/src/redact.rs:79-129 | key, closing quote, separator, spaces and quotes as the scanner's specification takes them, which `RedactShapes.SecretMasked` states on the shapes |
| Redact.UnquotedValue | crates/launcher-core/src/redact.rs:133-170 | the two index loops compute the value's extent |
| Redact.ValueEnd | crates/launcher-core/src/redact.rs:133-161 | the scan stops at the first terminator, an authorization value after its allowance of spaces |
| Redact.DropDots | crates/launcher-core/src/redact.rs:162-170 | full stops at the end are left out |
| Redact.PrefixedSecret | crates/launcher-core/src/redact.rs:174-207 | bearer values and `sk-` tokens of sufficient length |
| Redact.ScanMasksSpans | crates/launcher-core/src/redact.rs:47-75 | the output is the input with disjoint, increasing, non-empty spans masked and every other byte kept in order |
| RedactShapes.SecretMasked | crates/launcher-core/src/redact.rs:47-207 | the leftmost secret of a text: a key in any letter case, an optional closing quote, `=` or `:`, spaces and a quoted or bare value; a value behind `bearer`; or a long `sk-` run. Everything up to the value is kept, exactly the value gives way to the mask, and the scan goes on behind it |
| RedactShapes.NothingMasked | crates/launcher-core/src/redact.rs:47-207 | a text in which no such secret starts, save inside a longer word, is left as it is |
| RedactShapes.MaskedIff | crates/launcher-core/src/redact.rs:47-207 | something is masked exactly when such a secret starts in the text |
| RedactShapes.MaskedBehindSigns | crates/launcher-core/src/redact.rs:47-207 | behind signs and digits, as in a JSON line, no secret starts too early, so the one that follows is masked |
| Redact.RedactIdempotentIff | crates/launcher-core/src/redact.rs:47-207 | a second pass is the identity exactly when no authorization value is followed by whitespace and a further word |
| Redact.RedactIdempotent | crates/launcher-core/src/redact.rs:47-207 | on text without an authorization key a second pass is the identity |
| Redact.HeaderAbsorbsWord | crates/launcher-core/src/redact.rs:133-155 | the failing family: a third word is taken in by the second pass |
| Redact.SliceableIff | crates/launcher-core/src/redact.rs:47-90 | on UTF-8 text the scan completes exactly when every non-ASCII byte lies inside a masked span |
| Redact.AsciiCompletes | crates/launcher-core/src/redact.rs:47-90 | on ASCII text it always completes |
| Redact.NonAsciiStops | crates/launcher-core/src/redact.rs:85-90 | the failing family: UTF-8 text without a letter, but not ASCII |
| Redact.AccentStops | crates/launcher-core/src/redact.rs:85-90 | the shortest such text: one accented letter |
| Crash.MatchNeedles | crates/dsh-adapter/src/crash.rs:192-205 | the search loop ends where the greedy match ends, or nowhere |
| Crash.GreedyComplete | crates/dsh-adapter/src/crash.rs:192-205 | the search succeeds exactly when the needles occur in order without overlap at all, and ends as early as any choice can |
| Crash.OccursAtIff | crates/dsh-adapter/src/crash.rs:549-556 | a needle occurs where its lower-cased text stands in the lower-cased line |
| Crash.ReportedName | crates/dsh-adapter/src/crash.rs:206-223 | the name a signature reports: nothing, the text between the first quote behind the last needle and the next quote of that kind, or the name characters there |
| Crash.BareIsFirstRunIff | crates/dsh-adapter/src/crash.rs:573-583 | the bare name is the first run of name characters exactly when nothing but spaces stands before that run |
| Crash.ColonEndsCapture | crates/dsh-adapter/src/crash.rs:573-583 | the failing family: a separator before the name leaves the name empty |
| Crash.HoleFilled | crates/dsh-adapter/src/crash.rs:219-222 | the name takes the place of every hole in the message, and the rest of the message stays |
| Crash.Diagnosis.ClassifyWithExtras | crates/dsh-adapter/src/crash.rs:179-226 | the signature loop reports each firing signature's issue unless its key was seen, and says whether any fired |
| Crash.Diagnosis.ClassifySpecific | crates/dsh-adapter/src/crash.rs:274-291 | the built-in attempts are reported unless their keys were seen |
| Crash.Diagnosis.ClassifyCatchAll | crates/dsh-adapter/src/crash.rs:519-547 | an error line that is no connection noise is reported once |
| Crash.ErrorLineIff | crates/dsh-adapter/src/crash.rs:532-540 | an error line begins with `error:` in any letter case and names neither a refused connection nor an address in use |
| Crash.ErrorReported | crates/dsh-adapter/src/crash.rs:532-604 | such a line, claimed by no rule, is reported with the text behind `error:` or `Error:`, trimmed and cut after 200 characters |
| Crash.Diagnosis.Run | crates/dsh-adapter/src/crash.rs:122-141 | the whole loop reports the first attempt of every key |
| Crash.DiagnoseFacts | crates/dsh-adapter/src/crash.rs:122-141 | keys are distinct and each is reported with its first attempt |
| Crash.FirstAttemptOrder | crates/dsh-adapter/src/crash.rs:122-141 | issues come in the order in which their keys were first attempted |
| Crash.LongerLogExtends | crates/dsh-adapter/src/crash.rs:122-141 | diagnosing a longer log only extends the list of its beginning |
| Crash.BuiltInKeyReported | crates/dsh-adapter/src/crash.rs:117-141 | every key the built-in rules attempt is reported whatever the extras |
| Crash.KeyLostIff | crates/dsh-adapter/src/crash.rs:117-141 | extras cost a key only when it is the generic error and every line raising it is claimed by an extra that reports something else |
| Crash.ClaimDropsError | crates/dsh-adapter/src/crash.rs:117-141 | the failing family: one extra that looks for `error:` takes the generic issue of an error line away |
| Crash.BuiltInUnshadowedIff | crates/dsh-adapter/src/crash.rs:117-141 | a built-in diagnosis keeps its own message exactly when the first earlier line drawing its key by a signature or as a generic error, if any, draws the same issue |
| Crash.ExtraShadows | crates/dsh-adapter/src/crash.rs:117-141 | the failing family: an extra on an earlier line takes the diagnosis over |
| Pnpm.InsertAllowBuild | crates/dsh-adapter/src/pnpm.rs:190-260 | the scans for the anchor, the block's end and the package's line, and the edit they lead to |
| Pnpm.FindEnd | crates/dsh-adapter/src/pnpm.rs:219-230 | the scan ends behind the last indented content line before other top-level content |
| Pnpm.FindEntry | crates/dsh-adapter/src/pnpm.rs:239-245 | the first line of the block that states the package |
| Pnpm.NewEntry | crates/dsh-adapter/src/pnpm.rs:165-178 | the written line reads back as the package, approved, for every valid package name |
| Pnpm.KeyQuotedIff | crates/dsh-adapter/src/pnpm.rs:165-178 | exactly which names are written in double quotes |
| Pnpm.FirstApproval | crates/dsh-adapter/src/pnpm.rs:190-260 | the line and the place of an approval in a file without a block |
| Pnpm.EntryIndentIs | crates/dsh-adapter/src/pnpm.rs:231-300 | a new entry is indented like the block's first content line; without one, by the file's narrowest indentation, or two spaces |
| Pnpm.EntryReads | crates/dsh-adapter/src/pnpm.rs:263-283 | of a line with a name, quoted or not, and a colon the name and the trimmed rest are read |
| Pnpm.QuotedAtColumnZero | crates/dsh-adapter/src/pnpm.rs:263-283 | of a quoted name at column 0, which no block line has, the closing quote is taken for the colon |
| Pnpm.ApproveWorks | crates/dsh-adapter/src/pnpm.rs:190-316 | refused exactly on a valued top-level key; otherwise the package reads back true, every other key as before, and a second call changes nothing |
| Pnpm.BytesKeptIff | crates/dsh-adapter/src/pnpm.rs:184-260 | inside a block every other line survives byte for byte exactly when the file has no CRLF |
| Pnpm.CrlfWidensAnchor | crates/dsh-adapter/src/pnpm.rs:184-260 | the failing family: approving anything in an empty CRLF block |
| Pnpm.AppendKeepsText | crates/dsh-adapter/src/pnpm.rs:303-316 | without a block the old text stays as it is |
| Pnpm.ApprovedAtTopIff | crates/dsh-adapter/src/pnpm.rs:239-256 | the package is approved at the block's own indentation unless the approval found was nested |
| Pnpm.NestedApproval | crates/dsh-adapter/src/pnpm.rs:239-256 | the failing family: the package approved below another key |
| Pnpm.Workspace.AddAllowBuild | crates/dsh-adapter/src/pnpm.rs:81-126 | which outcome when, the backup, and that nothing is written unless the edited text parses |
| Skills.SkillDir.WriteAtomic | crates/dsh-adapter/src/content.rs:274-293 | the states of writing a temporary sibling, removing the old file and renaming |
| Skills.SkillDir.LandBundle | crates/dsh-adapter/src/content.rs:206-216 | the loop passes through the modelled states and stops at the first refused path |
| Skills.SkillDir.PruneStale | crates/dsh-adapter/src/content.rs:240-253 | exactly the walked files the bundle does not carry go |
| Skills.SkillDir.Update | crates/dsh-adapter/src/content.rs:181-201 | the files the walk lists are compared with the bundle, and nothing happens exactly when the hash is the recorded one and the directory holds exactly the bundle |
| Skills.SafeIff | crates/dsh-adapter/src/content.rs:295-313 | a path is accepted exactly when it has no backslash, no empty part and no part of one or two dots |
| Skills.VisibleIff | crates/dsh-adapter/src/content.rs:673-705 | the walk reaches a file exactly when no directory above it has one of the four skipped names |
| Skills.LandSafe | crates/dsh-adapter/src/content.rs:206-216 | from a directory without `SKILL.md`, at every state its presence means every other file of the bundle is there with its bytes |
| Skills.LandSafeIff | crates/dsh-adapter/src/content.rs:206-216 | that holds exactly when there was no `SKILL.md` before or there is nothing else in the bundle |
| Skills.UpdateExposesGap | crates/dsh-adapter/src/content.rs:206-216 | the failing family: any two-file bundle over an installed skill |
| Skills.LandedFacts | crates/dsh-adapter/src/content.rs:206-253 | at the end the bundle is there, and of the old files only those the walk never reaches |
| Skills.MatchesIff | crates/dsh-adapter/src/content.rs:221-235 | the two lists sorted by path are equal exactly when the bundle repeats no path, its files are on disk where the walk sees them, and the walk sees no other |
| Skills.LandedMatchesIff | crates/dsh-adapter/src/content.rs:206-253 | the sorted comparison finds the landed directory equal to the bundle exactly when no file of it sits in a skipped directory; bundles the launcher fetches have none (`Skills.FetchedIsVisible`) |
| Skills.UpdateNoopIff | crates/dsh-adapter/src/content.rs:181-253 | right after landing, the test of an update against the same upstream finds nothing to do under the same condition |
| Skills.FetchedIsVisible | crates/dsh-adapter/src/content.rs:470-487 | no file the walk skips enters a bundle, read from a repository or fetched as one file |
| Skills.FetchedUpdateNoop | crates/dsh-adapter/src/content.rs:181-253 | so a skill read from a repository and landed is up to date: the next update changes nothing |

## Left out

- Files are texts in memory: reading a missing patch file gives the empty text, as in the source; failures of writing it, directories and permissions are not modelled.
- The refinement of patch files covers files the launcher can edit (`PatchDoc.Readable`): entries headed by a column-0 dash, no remark that changes what a row's lines mean, no second `disabled:` line, no content outside entries. Outside it, on any text, `PatchLimits.dfy` gives the toggles read after disabling (`DisableReads`), enabling (`EnableReads`) and removing one row (`WithoutReads`), and `PatchSyncs.dfy` those after a sync (`SyncReads`) and whether it leaves a file the launcher can edit; the entries of such files, and whole runs over them, are not modelled.
- `parse_inserted_ids` (lib.rs:1069-1097): the same scope walk as `parse_insert_names`, collecting ids instead of names.
- YAML and JSON: a server's config is given as its serialized text, or as failing to serialize; the parsers are inputs (`Pnpm.Workspace.AddAllowBuild`), and whether another program accepts a file is not modelled.
- PatchBlocks.McpRowsFacts: server names are single lines, as sanitized names are; a catalog entry's own server name is taken as it stands (content.rs:764-768), and one with a line feed in it is not modelled.
- SkinNames.SyncedSkinsReadBack: package names are free of whitespace, quotes and hashes, which npm names are.
- The texts of the order violations, of errors and of crash messages: a violation is the pair of names, an error a constructor.
- The constraint map is a sequence of constraints in an arbitrary order; reading it from bundle files is not modelled.
- Download: the HTTP client, redirects and timeouts are the server's answer to each attempt at each offset; SHA-256 is an arbitrary function; progress callbacks are not modelled.
- Jobs: SQL statements are functions on a table of rows with never-reused ids, the lock makes calls atomic, and the clock is an input; `plan`, `list`, `waiting_instance_ids` and failures of the database are not modelled.
- Redact: a byte is a character below 256; borrowing instead of copying is not modelled.
- Crash: the built-in rule table (`classify_specific`) is an arbitrary function from lines to attempted issues; loading signature files is not modelled. Offsets count characters where the source counts bytes; a match starts and ends at a character either way.
- Pnpm.ApproveWorks: reads the file as the editor does, by lines; `Pnpm.ApprovedAtTopIff` relates this to the block's own indentation.
- Skills: a directory is a map from file paths to bytes; empty directories, a path that is a file in one version and a directory in the next, and names of temporary files that collide with bundle files are not modelled. Any failing step stops the run at one of the modelled states.
- Skills.LandedMatchesIff: stated for any bundle; the side with a file in a skipped directory cannot arise from `read_bundle` (content.rs:648-660) or the single-file fallback (content.rs:487).
- Skills.SkillDir.Update: fetching and hashing are inputs, and so is what the walk lists; files the walk lists but cannot read, which the comparison passes over, are not modelled.
- Process handling, network clients, the user interface, manifests and the tables of titles, prices and presets.
