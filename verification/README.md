# Verified models of Snowflake CLI cores

This project models the stateful and algorithmic cores of the Snowflake CLI and proves
what they promise, over every input or every run. `dafny verify dfyconfig.toml` checks it.

| files | what they model |
|---|---|
| `JsonText`, `Printing`, `JsonRoundTrip` | the streaming JSON array printer, against `json.dumps` of the whole list and against an RFC 8259 parser (sections 2, 5, 6 and 7) |
| `FileSystem`, `SecureCopy` | `SecurePath`: a tree of files and directories, and the check-then-copy of trees |
| `AppPipeline` | upload, build, poll, clean-up and teardown of an app, against a server whose every call may fail |
| `SpanMetrics`, `SpanReport` | the span tree with its running counters, and the bounded report |
| `ConnectionCache` | the open-connection cache with timers and remembered failures |
| `PathSplitter`, `StagePaths` | stage and git paths: splitter, parsers, printer, prefix relation |
| `ConfigStore` | nested settings kept in two files, one shadowing part of the other |
| `DbtAlter` | the ALTER statements that bring a dbt project object to what was requested |
| `VersionCache` | the version check with its two throttles |
| `BundleCleanup` | the retried delete of the bundle and the walk up through empty directories |
| `ReleaseNoteText`, `ReleaseNotes` | the duplicate check for RELEASE-NOTES.md |
| `CortexEscape` | the SQL literal escaper and a reader of literals |
| `Common` | what several modules share |

Objects that the source updates in place are classes here, loops are loops, and each such
method is tied to a function on values; the theorems are about those functions. Calls to
the server, the network, the clock and the file system end nondeterministically: every
statement holds whichever way they end.

## Where the code and its own texts disagree

- `dbt/manager.py`: an empty list of integrations without install_local_deps is found to
  differ (475-487) and then issues no clause (454-462). And install_local_deps alone, on an
  object whose integrations were never set, is not found to differ (484-487), so ALTER issues
  nothing where CREATE issues an empty list (539-540). `DbtAlter.Converges` and
  `DbtAlter.AlterAgreesWithCreate` give the exact conditions, `DbtAlter.EmptyListIsIgnored`
  and `DbtAlter.LocalDepsAreIgnored` instances.
- `_app/version_check.py` 172-174 promises the second repository whenever the first is not
  available; after an exception of the first it is not asked. `VersionCache.FallbackExactly`,
  with the instance `VersionCache.UnavailableBrewEndsTheCheck`.
- `_app/version_check.py`: a cache file that is damaged, or lacks the time of the last
  check, is never refreshed by ordinary commands. `VersionCache.DamageLastsUntilForced`.
- `api/config.py`: putting a value that is no table in place of all connections while
  connections.toml exists empties that file. `ConfigStore.SetRefinesOneTable` excludes
  exactly this. Removing the last connection leaves an empty table with two files and none
  with one (`ConfigStore.RemoveAgrees`). Removing a setting takes empty tables above it
  along, also those that were empty before (`ConfigStore.UnsetUndoesSet`).
- `apps/commands.py` 226-234 and 2220-2224 say that a personal database always gets a
  workspace; the code honours a configured stage (264-284).
- `apps/commands.py` 1903-1905 and 2435-2437 say that teardown addresses exactly what deploy
  created, also after an upload-only run or an interrupted deploy. It resolves the storage
  again and clears that one place. Code is left when the privilege probe answers differently
  by then: at the storage of the deploy, where a workspace upload that was refused half way
  and fell back to a stage also leaves files. And code is left in a fallback stage that was
  not dropped. `AppPipeline.DeployThenTeardownOf` and `AppPipeline.UploadOnlyThenTeardown`
  give the exact conditions for both places.
- `api/connections.py` 327-337: a close() that raises ends clear() there; what stays is stated
  by `ConnectionCache.OpenConnectionCache.Clear`.
- `api/connections.py` 298: without an event loop an access does not extend the timer.
  `ConnectionCache.LooplessAccessIsNotExtended`.
- `api/stage_path.py`: a `snow://` path that is only a resource type is not printed back.
  `StagePaths.SnowResourceAlone`.
- `_app/printing.py`: a list with NaN or an infinity is printed as text that is not JSON.
  `JsonRoundTrip.StreamRoundTrip`.

## Model

| member | source | states |
|---|---|---|
| `Printing.LinesAreIndented` | src/snowflake/cli/_app/printing.py:101-107 | printing the split lines of a text one by one with padding is the text with the padding put after each line feed |
| `Printing.ValueShifts` | src/snowflake/cli/_app/printing.py:98-107 | for every value, indent and depth: re-indenting its encoded text gives its encoding one level deeper, so no string or number in it holds a raw line feed |
| `Printing.ItemsShift` | src/snowflake/cli/_app/printing.py:98-107 | the same for the elements of an array with their separators |
| `Printing.MembersShift` | src/snowflake/cli/_app/printing.py:98-107 | the same for the members of an object |
| `Printing.PrintJsonItemWithArrayIndentation` | src/snowflake/cli/_app/printing.py:98-109 | the loop appends to the output the item's text with every line padded, or its compact text for indent 0 |
| `Printing.StreamCollectionAsJson` | src/snowflake/cli/_app/printing.py:112-129 | the loop appends the bracketed, comma-glued item texts, "[]" for an empty collection |
| `Printing.StreamingRefinesBulk` | src/snowflake/cli/_app/printing.py:112-129 | for every list and positive indent, the streamed text is the pretty-print of the whole list |
| `Printing.CompactRefinesBulk` | src/snowflake/cli/_app/printing.py:108-129 | with indent 0 the streamed text is the compact text of the whole list but for its line feeds, and each item stands on one line |
| `Printing.PrintJsonCollection` | src/snowflake/cli/_app/printing.py:255-270 | a printed collection is the 4-space pretty-print of the list and one line feed |
| `JsonRoundTrip.CharReadBack` | src/snowflake/cli/_app/printing.py:75-80 | every character's escape, surrogate pairs included, is read back as that character and never as the closing quote |
| `JsonRoundTrip.StringReadBack` | src/snowflake/cli/_app/printing.py:75-80 | every encoded string is read back in full, whatever follows it |
| `JsonRoundTrip.DumpsRoundTrip` | src/snowflake/cli/_app/printing.py:101-109 | for every value and indent, parsing its encoding after RFC 8259 gives the value, and fails if a number in it is not finite |
| `JsonRoundTrip.StreamRoundTrip` | src/snowflake/cli/_app/printing.py:112-129 | for every list and indent, compact included, parsing what was streamed gives the list exactly when all numbers are finite, and fails otherwise |
| `FileSystem.FileSystem.MkdirParents` | src/snowflake/cli/api/secure_path.py:153-168 | succeeds exactly when no file stands on the way and the path may exist; makes all the missing directories, owner-only, or changes nothing |
| `FileSystem.FileSystem.Unlink` | src/snowflake/cli/api/secure_path.py:347-361 | removes just that file; a missing path and a directory give their errors and no change |
| `FileSystem.FileSystem.Rmdir` | src/snowflake/cli/api/secure_path.py:363-383 | removes just that subtree; missing, file and non-empty cases give their errors and no change |
| `FileSystem.FileSystem.RestrictPermissions` | src/snowflake/cli/api/secure_path.py:139-143 | keeps the owner's permission bits of that entry and changes nothing else |
| `SecureCopy.CheckForConflicts` | src/snowflake/cli/api/secure_path.py:319-328 | the read-only pass succeeds exactly when no path of the source tree clashes with its image |
| `SecureCopy.CopyOneFile` | src/snowflake/cli/api/secure_path.py:331-336 | after unlink, copy and restriction the target holds the content for its owner only |
| `SecureCopy.RecursiveCopy` | src/snowflake/cli/api/secure_path.py:330-340 | once the check has passed, no step fails when the parent is a directory, and the tree becomes the overlay of source on destination |
| `SecureCopy.CopyChildren` | src/snowflake/cli/api/secure_path.py:339-340 | copying the children in any order never fails and completes the overlay |
| `SecureCopy.Copy` | src/snowflake/cli/api/secure_path.py:304-345 | it lands in an existing directory under the name of the source, unless that directory has this name and the source is no file, and otherwise at the destination; it succeeds exactly when there is a directory to land in and no path of the source clashes with its counterpart there; then every path of the source has its copy, for the owner only, and all that has no counterpart is as before; on failure nothing changes |
| `SecureCopy.CopyTo` | src/snowflake/cli/api/secure_path.py:319-345 | the same for the two passes at a given landing place |
| `SecureCopy.OverlayFrame` | src/snowflake/cli/api/secure_path.py:330-340 | an overlay leaves the source and everything outside the destination alone |
| `SecureCopy.OverlayChild` | src/snowflake/cli/api/secure_path.py:337-340 | copying one more child takes the overlay one child further |
| `SecureCopy.OverlayWellFormed` | src/snowflake/cli/api/secure_path.py:330-345 | a copy leaves every entry inside a directory |
| `SecureCopy.CopyResult` | src/snowflake/cli/api/secure_path.py:286-303 | path by path: the target mirrors the source with owner-only files, existing directories stay, and all that has no counterpart is as before |
| `SecureCopy.CopyTwice` | src/snowflake/cli/api/secure_path.py:298-303 | copying again with dirs_exist_ok finds no conflict and changes nothing |
| `AppPipeline.Server.UploadToStage` | src/snowflake/cli/_plugins/apps/manager.py:1213-1366 | parallel PUTs in any order: on success a stage the role can see has gained exactly the files, otherwise some of them; one it cannot see takes none and fails a non-empty upload; no other stage changes |
| `AppPipeline.Server.UploadToWorkspace` | src/snowflake/cli/_plugins/apps/manager.py:1213-1312 | the same for one subdirectory: all of the files on success, otherwise some of them; no other subdirectory changes even on failure |
| `AppPipeline.PrepareStage` | src/snowflake/cli/_plugins/apps/commands.py:465-488 | it stops at the first call that fails; afterwards a stage the role can see is empty and made by this very call; a stage that the role did not see is never dropped, so CREATE STAGE alone is enough for a first deploy |
| `AppPipeline.UploadViaStage` | src/snowflake/cli/_plugins/apps/commands.py:456-499 | the last call decides, with its own error: success exactly when no call failed, and then the stage holds exactly the bundle, without leftovers, in a stage made by this upload; only that stage is ever touched |
| `AppPipeline.PrepareWorkspace` | src/snowflake/cli/_plugins/apps/commands.py:415-441 | it stops at the first call that fails; on success the app's subdirectory is empty, on failure as it was; nothing else in any workspace changes |
| `AppPipeline.UploadViaWorkspace` | src/snowflake/cli/_plugins/apps/commands.py:414-453 | the last call decides, with its own error; on success the app's subdirectory holds exactly the bundle, on failure the code from before or, once that was cleared, part of the bundle; nothing else in any workspace changes and no stage operation is issued |
| `AppPipeline.UploadWithFallback` | src/snowflake/cli/_plugins/apps/commands.py:547-580 | a stage is used exactly when a workspace call ended in a ProgrammingError, and success means that nothing else failed |
| `AppPipeline.UploadAppCode` | src/snowflake/cli/_plugins/apps/commands.py:522-581 | the location returned is the storage, or the fallback stage exactly when a regular database's workspace was refused; success exactly when nothing failed but what made it fall back, and then it holds exactly the bundle; stage_created is set exactly on the stage paths, and a stage the role can see was then made by this run; a personal database sees no stage operation |
| `AppPipeline.PollUntil` | src/snowflake/cli/_plugins/apps/manager.py:377-415 | succeeds exactly when a done state comes after nothing but known pending states within the allowed attempts; an exception of the poll ends it as such, anything else as the command's error |
| `AppPipeline.SubmitBuild` | src/snowflake/cli/_plugins/apps/commands.py:708-755 | it stops at the first call that fails and ends with its error; at most one build is called for, last, once the repository is known to be there, with the source's location and current files |
| `AppPipeline.DropStageAfterBuild` | src/snowflake/cli/_plugins/apps/commands.py:593-610 | one attempt at the drop, whose failure changes nothing and is only reported |
| `AppPipeline.BuildApp` | src/snowflake/cli/_plugins/apps/commands.py:707-777 | success exactly when the build comes to DONE and no call failed but the drop; the stage of the upload, and no other, is dropped right after that; success means submitted, waited for and, if due, an attempt at the drop |
| `AppPipeline.BundleAndUpload` | src/snowflake/cli/_plugins/apps/commands.py:682-697 | the bundle is cleaned up whichever way the upload ends, and the outcome is that of the upload |
| `AppPipeline.BuildUploaded` | src/snowflake/cli/_plugins/apps/commands.py:682-777 | after its own upload a run builds only from what that upload left |
| `AppPipeline.UploadAndBuild` | src/snowflake/cli/_plugins/apps/commands.py:678-782 | over every pattern of failures: a run succeeds exactly when there is something to upload, the build comes to DONE, and no call failed but those that made the upload fall back and the drop after the build; the build gets the location its own upload ended on with exactly the bundle; the bundle is cleaned before any build; the stage dropped after a build is one this run made; build-only changes nothing stored and drops no stage; a workspace run on a personal database issues no stage operation; other apps' stages and subdirectories are as before |
| `AppPipeline.UploadFirst` | src/snowflake/cli/_plugins/apps/commands.py:681-777 | the same promises for a run that uploads, upload-only ones included, which build and drop nothing |
| `AppPipeline.CleanRun` | src/snowflake/cli/_plugins/apps/commands.py:678-782 | when no call fails and the build comes to DONE, a full run succeeds at the storage it was given, and its stage, if that is one, is gone again |
| `AppPipeline.TeardownAppCode` | src/snowflake/cli/_plugins/apps/commands.py:628-637 | on success this app's code is gone from the resolved storage and nothing else has changed |
| `AppPipeline.DeployThenTeardown` | src/snowflake/cli/_plugins/apps/commands.py:613-637 | a completed deploy whose stage was dropped, then teardown with the same storage, leaves none of the app's code where it was put, fallback included, and other apps' code as it was |
| `AppPipeline.UploadOnlyThenTeardown` | src/snowflake/cli/_plugins/apps/commands.py:699-705 | after an upload-only run teardown clears the upload's location exactly when no fallback was taken or the bundle was empty |
| `AppPipeline.SameLocationExactly` | src/snowflake/cli/_plugins/apps/commands.py:253-313 | with nothing configured the code goes to SNOWFLAKE_APPS exactly if the privilege probe says yes, otherwise to the app's stage; two resolutions of one app's storage give the same location exactly when the probe does not decide, or answers alike |
| `AppPipeline.DeployOf` | src/snowflake/cli/_plugins/apps/commands.py:253-326 | from the settings alone: the upload uses a workspace exactly if one is configured, or no stage is and the database is personal or the role may create a workspace, unless a call refused it on a regular database; under the configured name with its overrides, SNOWFLAKE_APPS, or the app's name with _CODE |
| `AppPipeline.TeardownOf` | src/snowflake/cli/_plugins/apps/commands.py:613-637 | its one call addresses, by the same rule from the settings alone, the subdirectory of that workspace or that stage |
| `AppPipeline.DeployThenTeardownOf` | src/snowflake/cli/_plugins/apps/commands.py:1897-1952 | deploy and teardown from one app's settings, each with its own probe: both choose a workspace or a stage by the rule above; the code goes where the settings say or, leaving the settings' workspace as it was or with part of the bundle, to the fallback stage; however the deploy ended, teardown clears the one place it comes to; after a completed deploy both places are empty exactly when the probe was stable or the deploy had left nothing at its own storage; on a personal database stages are touched exactly when code_stage alone is configured |
| `SpanMetrics.Span.constructor` | src/snowflake/cli/api/metrics.py:151-157 | a new span has the depth of its path to the root, and every ancestor's count grows by one |
| `SpanMetrics.Span.IncrementSubtreeNodeCount` | src/snowflake/cli/api/metrics.py:159-163 | the count of the span and of every ancestor, and of no other span, grows by one |
| `SpanMetrics.Span.AddChild` | src/snowflake/cli/api/metrics.py:165-167 | the child joins the children and is counted once by the whole chain |
| `SpanMetrics.Span.Finish` | src/snowflake/cli/api/metrics.py:169-181 | the first call records time and error; later calls change nothing |
| `SpanMetrics.ChainOrder` | src/snowflake/cli/api/metrics.py:155-157 | along a parent chain span_depth is the path length, so no span is its own ancestor |
| `SpanMetrics.CLIMetrics.Enter` | src/snowflake/cli/api/metrics.py:263-269 | an empty name changes nothing; otherwise the new span goes under the current one, shows as open under its name, and the tree invariant holds |
| `SpanMetrics.CLIMetrics.FinishEarly` | src/snowflake/cli/api/metrics.py:169-181 | finishing an open span early records its time once and keeps the tree invariant |
| `SpanMetrics.CLIMetrics.Leave` | src/snowflake/cli/api/metrics.py:271-280 | the innermost span moves from in progress to completed, reported with its path and the error raised in it, unless it was finished before: then what it recorded stays |
| `SpanMetrics.CLIMetrics.Run` | src/snowflake/cli/api/metrics.py:251-280 | after every program of nested spans, early finishes, exceptions and blocks that catch them: what is raised, what the open spans have recorded, and which spans are completed in which order, with which path to the root and which error, is what a pure reading of the program gives; one parent chain in progress, in-progress and completed partition all spans, counts are the true subtree sizes, everything started is completed, and no recorded time is overwritten |
| `SpanMetrics.CLIMetrics.RunSpan` | src/snowflake/cli/api/metrics.py:271-280 | the same for one span around a body: a non-empty name starts one span under the current one, completed after those of the body with the error the body raised; an empty name raises and starts none |
| `SpanMetrics.ChildrenOfCompleted` | src/snowflake/cli/api/metrics.py:276-280 | every child of a completed span is completed |
| `SpanReport.SortItems` | src/snowflake/cli/api/metrics.py:311-319 | the result holds the same items, in the order of depth, start and execution time |
| `SpanReport.NSmallestIsLower` | src/snowflake/cli/api/metrics.py:311-319 | the selection has as many members as allowed and misses no candidate with a smaller key than a member's |
| `SpanReport.CandidatesExact` | src/snowflake/cli/api/metrics.py:313-317 | the candidates are exactly the completed spans within the depth limit, as many as the depth counter leaves |
| `SpanReport.CompletedSpans` | src/snowflake/cli/api/metrics.py:321-329 | the report names distinct completed spans down to depth five, at most a hundred, in the order of depth, start and execution time; a span within the depth is left out only if there are a hundred that are not after it in that order; a span is marked trimmed exactly when a child of it is missing |
| `SpanReport.ReportCount` | src/snowflake/cli/api/metrics.py:288-329 | the completed spans not reported number exactly the larger of the two limit counters |
| `SpanReport.ParentReported` | src/snowflake/cli/api/metrics.py:309-319 | a reported span's completed parent is reported |
| `SpanReport.DescendantReported` | src/snowflake/cli/api/metrics.py:321-329 | if no reported span is marked trimmed, every descendant of a reported span is reported |
| `ConnectionCache.OpenKeepsInv` | src/snowflake/cli/api/connections.py:346-353 | opening keeps the invariant: keys of connections and failures disjoint, timers and cached connections matched, every connection cached or closed once, no redial, timers late enough |
| `ConnectionCache.DialFailedKeepsInv` | src/snowflake/cli/api/connections.py:354-366 | so does remembering a failed dial |
| `ConnectionCache.DialInterruptedKeepsInv` | src/snowflake/cli/api/connections.py:347-354 | so does an interrupted dial, which is not remembered |
| `ConnectionCache.TouchKeepsInv` | src/snowflake/cli/api/connections.py:372-393 | so does an access that replaces the timer, or finds no event loop |
| `ConnectionCache.CleanupKeepsInv` | src/snowflake/cli/api/connections.py:395-408 | so does closing, by a due timer or by clear |
| `ConnectionCache.ForgetKeepsInv` | src/snowflake/cli/api/connections.py:339-341 | so does forgetting failures |
| `ConnectionCache.AdvanceKeepsInv` | src/snowflake/cli/api/connections.py:390-393 | so does the passing of time |
| `ConnectionCache.AccessKeepsInv` | src/snowflake/cli/api/connections.py:305-325 | so does a whole access; the connection it leaves cached has never been closed |
| `ConnectionCache.StepKeepsInv` | src/snowflake/cli/api/connections.py:305-408 | every step of the protocol keeps the invariant |
| `ConnectionCache.EveryRunSafe` | src/snowflake/cli/api/connections.py:305-408 | the invariant holds after every run of accesses with any dial outcomes, timers, passing time, and clears in any order, completed or cut short by a close() that raises |
| `ConnectionCache.OpenExactlyWhileCached` | src/snowflake/cli/api/connections.py:285-291 | under that invariant close() has not been called on a cached connection, and exactly once on any other connection ever opened |
| `ConnectionCache.TimerNamesCached` | src/snowflake/cli/api/connections.py:372-408 | under that invariant a live timer names a cached connection and is the one recorded for it, so a firing timer never misses |
| `ConnectionCache.RedialOnlyAfterForgetting` | src/snowflake/cli/api/connections.py:314-323 | between a failed dial of a key and any later dial of it, failures were forgotten |
| `ConnectionCache.IdleAtLeastTenMinutes` | src/snowflake/cli/api/connections.py:297-298 | a timer closes a connection no earlier than CONNECTION_CLEANUP_SEC after any access that could reach the event loop |
| `ConnectionCache.IdleOverSteps` | src/snowflake/cli/api/connections.py:372-393 | over every run: between an access with an event loop that leaves its key cached and a timer that closes that connection, the steps let at least ten minutes pass |
| `ConnectionCache.LooplessAccessIsNotExtended` | src/snowflake/cli/api/connections.py:375-388 | the condition is needed: a run in which a timer is due at the moment of an access without event loop |
| `ConnectionCache.OpenConnectionCache.GetItem` | src/snowflake/cli/api/connections.py:305-325 | an access returns, or raises as it should; what it returns has just been touched, so that with an event loop its timer is due in ten minutes; a key is dialled once if it is neither cached nor known to fail, and otherwise not at all |
| `ConnectionCache.OpenConnectionCache.Touch` | src/snowflake/cli/api/connections.py:372-393 | the key's timer is replaced by one ten minutes ahead, or nothing changes without an event loop |
| `ConnectionCache.OpenConnectionCache.Cleanup` | src/snowflake/cli/api/connections.py:395-408 | drops the connection with its timer and calls close(), which may raise; a key that is not cached is reported |
| `ConnectionCache.OpenConnectionCache.FireTimer` | src/snowflake/cli/api/connections.py:391-408 | a due timer always finds its connection, and drops and closes it |
| `ConnectionCache.OpenConnectionCache.Clear` | src/snowflake/cli/api/connections.py:327-337 | it is the step of the runs below: the cached connections are closed in some order and everything is forgotten, or a close that raises cuts it short and what was not reached stays |
| `ConnectionCache.OpenConnectionCache.ClearFailures` | src/snowflake/cli/api/connections.py:339-341 | forgets the failures and nothing else |
| `PathSplitter.ScanIsComponents` | src/snowflake/cli/api/stage_path.py:163-178 | the loop's flag and cursor cut exactly at slashes outside a component quoted from its start, never at a trailing slash |
| `PathSplitter.JoinComponents` | src/snowflake/cli/api/stage_path.py:161-182 | joining the parts with slashes restores the text |
| `PathSplitter.SplitParts` | src/snowflake/cli/api/stage_path.py:161-178 | the loop returns those components, and they join to the input |
| `StagePaths.NormalNames` | src/snowflake/cli/api/stage_path.py:35-35 | the components of a text without empty or "." components spell it up to a trailing slash |
| `StagePaths.FieldsSpell` | src/snowflake/cli/api/stage_path.py:178-182 | the repository, ref and path a git path is split into spell it |
| `StagePaths.GitPathRoundTrip` | src/snowflake/cli/api/stage_path.py:139-203 | absolute_path(from_git_str(s)) == s for every prefixed path of at least three parts without empty or "." components, quoted refs and trailing slash included |
| `StagePaths.StagePathRoundTrip` | src/snowflake/cli/api/stage_path.py:113-137 | absolute_path(from_stage_str(s)) == s for every "@" path without empty or "." components |
| `StagePaths.SnowPathRoundTrip` | src/snowflake/cli/api/stage_path.py:118-135 | the same for every "snow://" path with something after its resource type |
| `StagePaths.SnowResourceAlone` | src/snowflake/cli/api/stage_path.py:118-135 | the rest is needed: a lone resource type is parsed as a stage of that name, which is printed as another path, and with a slash after it is an error |
| `StagePaths.RelativeTo` | src/snowflake/cli/api/stage_path.py:297-331 | gives the remainder exactly when no leading component differs, up to case if both are unquoted identifiers |
| `StagePaths.MatchesIsEquivalence` | src/snowflake/cli/api/stage_path.py:315-327 | the mixed comparison is an equivalence relation, and goes beyond equality exactly for unquoted names that differ in case alone |
| `StagePaths.JoinThenRelative` | src/snowflake/cli/api/stage_path.py:205-218 | joining q and going back gives the path of q for every q, spelled exactly as q when q is normal without a trailing slash; joining keeps stage, ref and prefix and drops a trailing slash |
| `StagePaths.RelativeIsTransitive` | src/snowflake/cli/api/stage_path.py:297-331 | if a is below b and b below c then a is below c, and the remainder is something equivalent to b-from-c and then exactly a-from-b |
| `ConfigStore.SetNested` | src/snowflake/cli/api/config.py:472-477 | the walk sets the value at the path, makes missing tables, and fails on an empty path or on anything but a table on the way |
| `ConfigStore.RemoveNested` | src/snowflake/cli/api/utils/dict_utils.py:79-114 | the two loops remove the key and each parent that this empties, or report an absent key |
| `ConfigStore.GetAfterSet` | src/snowflake/cli/api/config.py:466-477 | reading what was set gives the value |
| `ConfigStore.SetFrame` | src/snowflake/cli/api/config.py:466-477 | setting changes no path apart from the one set |
| `ConfigStore.SetTwice` | src/snowflake/cli/api/config.py:466-477 | a second value replaces the first |
| `ConfigStore.SetFailsExactly` | src/snowflake/cli/api/config.py:473-477 | setting fails exactly when a proper prefix of the path holds something that is not a table |
| `ConfigStore.GetAfterUnset` | src/snowflake/cli/api/utils/dict_utils.py:79-114 | after removal the path is absent, and the flag tells whether it was there |
| `ConfigStore.UnsetFrame` | src/snowflake/cli/api/utils/dict_utils.py:103-112 | removal changes no path apart from the one removed |
| `ConfigStore.UnsetUndoesSet` | src/snowflake/cli/api/utils/dict_utils.py:82-86 | removing a key that was set anew restores the table exactly when no empty table was on the way |
| `ConfigStore.ConfigStore.Dump` | src/snowflake/cli/api/config.py:691-711 | with two files connections.toml gets exactly the connections of the view, and config.toml the rest and those connections it had itself, never the others; a view whose connections are no table fails with connections.toml emptied and config.toml as it was |
| `ConfigStore.ConfigStore.SetConfigValue` | src/snowflake/cli/api/config.py:466-477 | the two files afterwards are those of the changed view; an error before the write changes neither, and putting something that is no table in place of all connections empties connections.toml |
| `ConfigStore.ConfigStore.UnsetConfigValue` | src/snowflake/cli/api/config.py:480-487 | the same for removal, which never fails half way |
| `ConfigStore.ConfigStore.AddConnectionToProperFile` | src/snowflake/cli/api/config.py:307-321 | adds to connections.toml alone when it exists, and otherwise to config.toml |
| `ConfigStore.ConfigStore.RemoveConnectionFromProperFile` | src/snowflake/cli/api/config.py:324-335 | removes from the proper file; a missing name is an error only with connections.toml |
| `ConfigStore.ReadBack` | src/snowflake/cli/api/config.py:691-711 | writing a view and reading it back gives the view exactly when its connections are a table or there is one file |
| `ConfigStore.SetRefinesOneTable` | src/snowflake/cli/api/config.py:466-477 | the two files behave as one nested table under set_config_value, but for one family of calls, which is given exactly |
| `ConfigStore.ReadAfterSet` | src/snowflake/cli/api/config.py:466-477 | over the two files: the new value at the path, the old logical view at every path apart |
| `ConfigStore.SetTouchesOnePart` | src/snowflake/cli/api/config.py:691-711 | with two files a command below the connections leaves the rest of config.toml alone, and any other leaves connections.toml alone |
| `ConfigStore.UnsetTouchesOnePart` | src/snowflake/cli/api/config.py:691-711 | the same for removal |
| `ConfigStore.UnsetRefinesOneTable` | src/snowflake/cli/api/config.py:480-487 | the same for unset_config_value, up to an absent against an empty connections table |
| `ConfigStore.ShadowedConnectionsSurvive` | src/snowflake/cli/api/config.py:696-706 | the non-empty connections of config.toml survive every run of commands, failing ones included, while connections.toml shadows them |
| `ConfigStore.NothingLeaks` | src/snowflake/cli/api/config.py:700-706 | over every run of commands, config.toml never comes to hold connections of connections.toml |
| `ConfigStore.AddAgrees` | src/snowflake/cli/api/config.py:307-321 | adding a connection has the same logical effect with one file and with two |
| `ConfigStore.RemoveAgrees` | src/snowflake/cli/api/config.py:324-335 | removing one has the same logical effect exactly unless it was the only one; errors differ only for a missing name |
| `DbtAlter.SortedInOrder` | src/snowflake/cli/_plugins/dbt/manager.py:458-459 | sorting gives the same names in order |
| `DbtAlter.SortedByCodePoints` | src/snowflake/cli/_plugins/dbt/manager.py:454-462 | that order is by the first code point in which two names differ, a prefix coming first |
| `DbtAlter.PropertyUpdates` | src/snowflake/cli/_plugins/dbt/manager.py:398-462 | the branches collect the clauses to set and the properties to unset, in order |
| `DbtAlter.Session.ExecutePropertyUpdates` | src/snowflake/cli/_plugins/dbt/manager.py:489-498 | issues one SET with all clauses and one UNSET for each name, in order; it fails exactly when one is refused, and issues nothing after that |
| `DbtAlter.Session.DeployAlter` | src/snowflake/cli/_plugins/dbt/manager.py:391-472 | issues the statements in order; it fails exactly when one is refused, and issues nothing after that |
| `DbtAlter.Converges` | src/snowflake/cli/_plugins/dbt/manager.py:398-472 | applying the statements gives every requested attribute (target up to case, named integrations as a set, an explicit empty list for local dependencies alone) and keeps the others, exactly unless an empty list was requested without install_local_deps for an object that has integrations, or local dependencies alone for an object whose integrations are not set |
| `DbtAlter.EmptyListIsIgnored` | src/snowflake/cli/_plugins/dbt/manager.py:449-462 | an instance of the exception: the difference is found and not applied |
| `DbtAlter.LocalDepsAreIgnored` | src/snowflake/cli/_plugins/dbt/manager.py:475-487 | an instance of the other exception: no clause is issued, where CREATE sets the empty list |
| `DbtAlter.VersionComesLast` | src/snowflake/cli/_plugins/dbt/manager.py:426-472 | one version is added, last, compiled under the requested auto-compile setting |
| `DbtAlter.NeverSetAndUnset` | src/snowflake/cli/_plugins/dbt/manager.py:401-418 | no property is both set and unset, whatever was requested |
| `DbtAlter.NothingNeedless` | src/snowflake/cli/_plugins/dbt/manager.py:391-487 | no clause is issued that was not requested or that the description shows to be so already; the environment and the dbt version, which it does not show, always are |
| `DbtAlter.SecondRunIssuesLittle` | src/snowflake/cli/_plugins/dbt/manager.py:410-446 | a second run issues the environment and the dbt version again, and nothing else but a flag that DESCRIBE does not show |
| `DbtAlter.StoppedRun` | src/snowflake/cli/_plugins/dbt/manager.py:489-498 | what a refused statement leaves behind: nothing changed, or everything set and some unset |
| `DbtAlter.RetryAfterFailure` | src/snowflake/cli/_plugins/dbt/manager.py:391-498 | running again after a failure half way ends where the first run would have |
| `DbtAlter.AlterAgreesWithCreate` | src/snowflake/cli/_plugins/dbt/manager.py:500-541 | altering an object with nothing set gives what CREATE gives, and adds the version CREATE makes, exactly unless local dependencies alone are requested |
| `VersionCache.VersionCache.SaveLatestVersion` | src/snowflake/cli/_app/version_check.py:129-144 | writes version and time, and keeps when the banner was last shown |
| `VersionCache.VersionCache.UpdateLastTimeShown` | src/snowflake/cli/_app/version_check.py:146-156 | writes the time of the banner and keeps the rest |
| `VersionCache.VersionCache.GetLastVersion` | src/snowflake/cli/_app/version_check.py:171-197 | the text is that of a cache less than an hour old, or the first that a repository has; without such a cache the repositories are asked in turn, and what they have is written with its time; every exception gives no version and no write |
| `VersionCache.VersionCache.GetNewVersionMsg` | src/snowflake/cli/_app/version_check.py:51-65 | a banner exactly for a newer version, unless it is ignored or one was shown within the week; showing it is noted in the file |
| `VersionCache.VersionCache.GetVersionInfo` | src/snowflake/cli/_app/version_check.py:75-89 | reports the version found, never silenced, and whether it is newer |
| `VersionCache.StepKeepsInvariant` | src/snowflake/cli/_app/version_check.py:51-89 | every command keeps both throttles and a sound cache file |
| `VersionCache.EveryRunThrottled` | src/snowflake/cli/_app/version_check.py:28-65 | over every run with a positive clock that does not go back, and whatever the network answers: banners are more than a week apart, an unforced refresh comes at least an hour after any refresh, the file holds version and time of the last refresh, and no refresh loses the time of the last banner |
| `VersionCache.CachedVersionIsFresh` | src/snowflake/cli/_app/version_check.py:181-186 | a version answered from the cache is the one fetched last, less than an hour ago, and no repository is asked for it |
| `VersionCache.DamageLastsUntilForced` | src/snowflake/cli/_app/version_check.py:181-197 | a damaged cache file stays as it is, with no refresh and no banner, exactly until a forced refresh succeeds |
| `VersionCache.FallbackExactly` | src/snowflake/cli/_app/version_check.py:171-177 | over every run, whatever the repositories answer, the second one is asked exactly when the first has just answered without a version; never first, and never after an exception of the first |
| `VersionCache.UnavailableBrewEndsTheCheck` | src/snowflake/cli/_app/version_check.py:171-179 | an instance: the first repository raises, the second has a version, and the refresh ends without one and with the file as it was |
| `BundleCleanup.Disk.RemoveTree` | src/snowflake/cli/_plugins/apps/snowflake_app_project_paths.py:76-77 | a recursive delete removes exactly the subtree; it fails only when one delete or one listing in it is refused, with the directory still there and nothing outside touched |
| `BundleCleanup.Disk.RemoveDirectory` | src/snowflake/cli/_plugins/apps/snowflake_app_project_paths.py:74-88 | at most four attempts, the delays slept exactly between them; every attempt but the last ended in a refusal with a PermissionError, any other error ends it at once, and without a refusal the first attempt removes the directory; success removes exactly the subtree whatever earlier attempts left |
| `BundleCleanup.Disk.ClearReadonlyBits` | src/snowflake/cli/_plugins/apps/snowflake_app_project_paths.py:58-64 | changes write bits in the subtree at most |
| `BundleCleanup.Disk.RemoveEmptyUpTo` | src/snowflake/cli/_plugins/apps/snowflake_app_project_paths.py:159-175 | the walk removes exactly the ancestors left empty, unless removing one of them is refused; then those below that one are gone and no other |
| `BundleCleanup.Disk.CleanUpOutput` | src/snowflake/cli/_plugins/apps/snowflake_app_project_paths.py:141-157 | it reports instead of failing; when nothing is refused, the bundle and exactly the chain of ancestors left empty are gone without a warning; a warning means the bundle is a file or its last attempt was refused, and a chain cut short means a refused delete of one of its directories |
| `BundleCleanup.Disk.RemoveUpBundleRoot` | src/snowflake/cli/_plugins/apps/snowflake_app_project_paths.py:112-124 | after success nothing is left of the bundle; after an error it is still there; without a refused delete it fails only for a file |
| `BundleCleanup.ChainIsLongest` | src/snowflake/cli/_plugins/apps/snowflake_app_project_paths.py:167-175 | every ancestor below the project root that stays holds something |
| `BundleCleanup.WalkFrame` | src/snowflake/cli/_plugins/apps/snowflake_app_project_paths.py:167-175 | the walk takes only directories strictly below the project root and above the bundle |
| `BundleCleanup.CleanedPathByPath` | src/snowflake/cli/_plugins/apps/snowflake_app_project_paths.py:126-175 | path by path: after an unhindered clean-up exactly those directories above the bundle and below the project root are gone with it that held nothing but what led to it |
| `BundleCleanup.CleanUpLosesNothingElse` | src/snowflake/cli/_plugins/apps/snowflake_app_project_paths.py:129-132 | no file outside the bundle and no project root is ever lost |
| `ReleaseNoteText.HeaderLanguage` | scripts/check_release_notes_duplicates.py:42-42 | the headers are exactly the lines that the pattern matches, and the title is what stands between the white space |
| `ReleaseNoteText.BulletLanguage` | scripts/check_release_notes_duplicates.py:43-43 | the bullets are exactly the lines that the pattern matches, and the text is what stands between the white space |
| `ReleaseNoteText.ReleasedLanguage` | scripts/check_release_notes_duplicates.py:45-45 | the released sections are exactly those the pattern matches, on ASCII digits |
| `ReleaseNoteText.NormalizeSpellsWords` | scripts/check_release_notes_duplicates.py:48-50 | a normalised text spells the lower-case words of the text with single spaces |
| `ReleaseNoteText.WordsOfSpelled` | scripts/check_release_notes_duplicates.py:48-50 | words can be read back from their spelling |
| `ReleaseNoteText.SameBullet` | scripts/check_release_notes_duplicates.py:48-50 | two bullets count as the same exactly when they have the same words up to case and spacing |
| `ReleaseNotes.IterBullets` | scripts/check_release_notes_duplicates.py:53-68 | the loop yields the bullets of every section in order with their line numbers |
| `ReleaseNotes.FirstReleasedSection` | scripts/check_release_notes_duplicates.py:71-77 | the first released header in document order |
| `ReleaseNotes.Collect` | scripts/check_release_notes_duplicates.py:84-86 | the dictionary holds for each bullet its places in order, keyed by first occurrence |
| `ReleaseNotes.MessagesAbout` | scripts/check_release_notes_duplicates.py:91-130 | the loop body says of one bullet what its places call for |
| `ReleaseNotes.FindDuplicates` | scripts/check_release_notes_duplicates.py:80-131 | the errors are the report of the lines |
| `ReleaseNotes.NumbersExact` | scripts/check_release_notes_duplicates.py:92-96 | the line numbers of a message are exactly the occurrences, in order |
| `ReleaseNotes.NamesExact` | scripts/check_release_notes_duplicates.py:102-104 | the section names of a message are exactly those of the occurrences |
| `ReleaseNotes.ReportExact` | scripts/check_release_notes_duplicates.py:91-131 | soundness and completeness: a message is reported exactly when the lines warrant it, with all its line numbers and names |
| `ReleaseNotes.RepeatedIsReported` | scripts/check_release_notes_duplicates.py:91-99 | a bullet is reported as repeated exactly when more than one line under the Unreleased header holds it, with exactly those lines |
| `ReleaseNotes.KeptIsReported` | scripts/check_release_notes_duplicates.py:100-108 | a bullet is reported as kept exactly when lines under Unreleased and under released headers hold it, with exactly those lines and those headers |
| `ReleaseNotes.DriftedIsReported` | scripts/check_release_notes_duplicates.py:109-130 | a bullet is reported as drifted exactly when lines under the first released header and under other released ones hold it and none under Unreleased, with exactly those lines and those headers |
| `ReleaseNotes.CleanExactly` | scripts/check_release_notes_duplicates.py:15-29 | the report is empty exactly when no bullet is repeated under Unreleased, kept there after release, or drifted into the latest release |
| `ReleaseNotes.NoContradiction` | scripts/check_release_notes_duplicates.py:113-116 | no bullet gets both a message about Unreleased and the older-release message |
| `ReleaseNotes.ReportedOnce` | scripts/check_release_notes_duplicates.py:90-131 | no message is reported twice |
| `CortexEscape.EscapeIsOnePass` | src/snowflake/cli/_plugins/cortex/manager.py:232-236 | the two replacements in sequence are one pass that puts a backslash before each backslash and quote |
| `CortexEscape.OrderMatters` | src/snowflake/cli/_plugins/cortex/manager.py:234-236 | the other order gives the same exactly for texts without a quote |
| `CortexEscape.EscapeReadBack` | src/snowflake/cli/_plugins/cortex/manager.py:232-236 | read as a literal anywhere in a statement, the escaped text first closes at the caller's quote and decodes to the text exactly when no other quote follows directly |
| `CortexEscape.FollowingQuoteJoins` | src/snowflake/cli/_plugins/cortex/manager.py:232-236 | with a second quote after it, wherever it stands, the literal runs on beyond both or never closes |
| `CortexEscape.StatementReadBack` | src/snowflake/cli/_plugins/cortex/manager.py:203-217 | whatever the texts, the literals of the statement are exactly the texts: none changes where another begins or ends |

## Left out

- Printing: conversions of dates, paths and decimals by the encoder, non-string keys, lone surrogates, CSV, and nested results streamed by the standard library's chunked writer. Floats are their printed forms.
- SecurePath: symbolic links, Windows permissions, copying a tree into itself (source and target are disjoint subtrees), and failures of the operating system during the copy pass. The umask is two constants.
- App pipeline: SQL texts, identifier quoting, the name syntax of personal databases (a parameter), encryption types, log streaming, the role looked up for error messages, and the predicate mode of polling. A stage that the role cannot see takes no files and is not dropped. A refused statement has no effect, except that parallel PUTs and the two statements of workspace creation may have been carried out in part. An app's subdirectory is one path component.
- App pipeline: a bundling that fails is outside the `try`, so what it leaves on disk is not cleaned up; the model records only that nothing is uploaded or built then.
- AppPipeline.DeployThenTeardown: an empty bundle has no PUT to fail on a stage that the role cannot see, so that the stage itself is gone is promised for bundles that are not empty.
- Span metrics: counters, telemetry fields and `clone`. Spans are compared by identity, as their unique ids make them.
- Connection cache: what building and closing a connection do, and the hashing of contexts into keys, which is taken to be injective.
- Stage paths: `FQN` shortening of stage names, quoting for SQL, and the look at the local disk in is_dir and is_file, so joinpath is modelled for paths that are not files. Nothing is claimed of paths outside the stated forms.
- Config store: environment variables, file permissions, TOML syntax, and the connector's reading rule, taken from the comment at src/snowflake/cli/api/config.py:696-699. Nested dictionaries are values here, so aliasing between them is not captured.
- DbtAlter: SQL texts and quoting, profiles and env files, validation of versions. The server keeps names of integrations as given, and lower-casing is that of ASCII.
- VersionCache: fields of a wrong type written by another program, failing writes, and the order of version numbers, which is a rank. Times are exact.
- BundleCleanup: symbolic links, and other processes changing the tree during the clean-up.
- BundleCleanup.Disk.CleanUpOutput: the question whether the bundle exists stands outside the `try` (snowflake_app_project_paths.py:141-144); on Python versions whose `Path.exists` raises for a directory that may not be searched it can fail, against "Never raises". Here that question is always answered.
- BundleCleanup.Disk.RemoveUpBundleRoot: the same question at line 112 is always answered here.
- ReleaseNotes: the wording of messages and the sorting of section names in it, digits and letters beyond ASCII in version numbers and lower-casing, and splitting the file into lines.
- CortexEscape: octal, hexadecimal and Unicode escapes, which the escaper never writes, and the queries that are not literals.
- Commands, options, REST calls, TLS checks, setup, validation and the remaining plugins: plumbing whose members would be easy.
