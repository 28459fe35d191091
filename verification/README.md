# Verified model of the Kubecode server's cores

Kubecode's server watches project trees, keeps terminal output, reads git and
files for an agent's context, and offers the commands an agent advertises. This
project models the state machines and parsers at the centre of that work, in
Dafny, and proves what they promise. `dafny verify dfyconfig.toml` checks all of
it.

## What is modelled

**Project watcher** (`PathSets`, `WatcherModel`, `ProjectWatcher`, `WatcherRuns`,
`WatcherTiming`, `WatcherPayload`, `WatcherEvents`). `ProjectWatcher.Worker` is the worker with its
maps of registrations, batches, retries, generations and overflow flags; each of
its methods is proved to do, to every project, what a function of `WatcherModel`
does to one. `WatcherRuns` interleaves channel sends, native callbacks of any
issued generation, receives, loop turns and the clock in any order. Each tracked
project carries the changes reported and not yet told to the clients; the main
results say where these wait, that a removed project stays silent for ever, and
that the debt is paid once things are quiet. `WatcherEvents` says what is told:
after any run, the calls of a loop turn are exactly those that what happened to
the project since the last accepted event calls for, in terms of the native paths.

**Terminal output** (`TerminalRing`, `Sanitizer`, `TerminalText`,
`TerminalContext`, `TerminalCaptures`, `SelectionCaptures`). The cursor-addressed
ring against the stream it is the end of; the escape-sequence filter (ECMA-48,
sections 5.4 and 5.6) against a byte-at-a-time transducer, and against a grammar
of characters, controls and whole sequences that all output can be read by; the
bounded tail; and captures that are taken, retained and resolved while output
goes on, with exactly what each keeps or why it is refused.

**Git** (`GitCollector`, `GitStatus`, `GitPrint`, `GitTruncation`, `GitDiff`,
`DiffAnswers`, `DiffReasons`). The budgeted collector of
`git status --porcelain=v2 -z`, the parser it feeds, a printer of that format that
the parser undoes, also when the output was cut; and the two ways to a diff
context, listing candidates and resolving one, with which patches they consist of
and why some are not offered.

**Files** (`TextPages`, `TopHits`, `FileSearch`, `SearchAnswers`). Paging through
text from any byte offset, the transcript tail, and the bounded breadth-first
search, against what the directories list.

**Composer** (`Json`, `ComposerCatalog`, `ComposerAgreement`, `ComposerPayload`,
`ComposerListing`, `OpaqueIds`). Projecting an agent's payload into items,
resolving a pick from the raw payload again, exactly which items there are and
what they show, and the bytes that ids are digests of: ids made of a digest that does not
collide have the property the catalog is proved with (`ItemIdsInjective`).

**Smaller cores**: single-flight refresh of the agent catalog (`AgentRefresh`)
and `file:` URIs (`FileUri`). `Utf8` (RFC 3629, section 4), `Text`, `Bytes`,
`Digests`, `WorkspacePaths` and `Wrappers` are shared.

A method that changes state or loops is proved equal to a function of the old
state or of its input; the properties are lemmas about that function.

## Assumptions

- A loop turn (poll, retry, flush) is one step: no callback falls inside it. A
  flush lowers the overflow flag unconditionally (`project_watcher.rs:440`), so a
  flag raised between the poll and the flush would be erased.
- A project id is registered once; ids are fresh and watching starts once
  (`workspace.rs:841`, `workspace.rs:1717`). `SecondRegistrationWouldLose` shows
  that this is needed.
- A change below `.git` is told by any event: clients refresh git on each
  (`docs/ABSTRACTIONS.md:662`).
- `Instant` is a natural number that never decreases; generations and cursors are
  natural numbers, so `u64` saturation and wrap-around are not reached.
- Git's output, the file system, `check-ignore`, native watches, the sink and
  process exits are parameters. In a search, what git says of a path does not
  depend on the other paths asked, and a directory lists the same each time.
- SHA-256 does not collide on the preimages of item keys. `ItemPreimageInjective`
  proves that distinct keys have distinct preimages, and `ItemIdsInjective` that
  then distinct items have distinct ids. Strings are shorter than 2^64 bytes.

## What turned out false

Each of these is stated as the code has it, with an input that shows it and the
exact condition.

- After a failed flush the next try is said to come no earlier than the next
  2-second boundary (ADR 0208). An event or a poll of a raised flag forgets the
  delay: `EarlyRetry` has a retry after 251 ms. When a touched batch comes due is
  `RetryComesDue`; the boundary is kept exactly if the touch comes in the last
  quiet window before it and the batch had no earlier event: `BoundaryKeptIff`.
- An event without paths makes a batch dirty with nothing to send. No turn clears
  it, and it is due for ever: `EmptyEventNeverClears`, by a run of four steps. A
  record leaves something to send exactly if it lists a path or there was
  something before (`SignalIffPaths`), and in a run without such events every
  dirty batch can be sent (`DirtyBatchesCanBeSent`).
- Watched paths below the top-level `.state` are said to be rejected (ADR 0208).
  They are ordinary exactly if the names below it are safe: `StateIsOrdinary`;
  which paths are ordinary at all: `OrdinaryIff`.
- A selection whose bytes are all still there does not resolve while the ring
  ends inside a character: `SplitCharacterHidesASelection`; exactly when a capture
  resolves: `ResolvesExactly`.
- A rename with an empty original path parses in full, but not once the collector
  stopped behind it: `EmptyOriginalBreaksTruncation`. Output that parses survives
  every truncation exactly if its renames name their original paths:
  `SurvivesIffOriginalsPresent`. Git itself prints no other.
- A stray continuation byte at a page start is skipped without a word, so pages
  that are all text may come from a file that is not: `StrayByteIsDropped`. Given
  pages that are all text, the file is text exactly if no page was asked for at a
  continuation byte: `TextIffNothingSkipped`.
- A transcript that stops inside a character reads as nothing, since only the
  front is trimmed: `CutLogReadsAsNothing`; exactly when something is left:
  `TailSurvivesIffItEndsWhole`.
- A Claude skill may be listed as enabled and never run, if another row with its
  identity is invalid: `EnabledSkillNeverRuns`; exactly when it runs:
  `SkillDispatchableIffIdentityUnique`.
- `%+5` decodes as an escape, since a sign is accepted before a digit:
  `SignedExample`; nothing else is accepted beyond RFC 3986:
  `AcceptsSignedBeyondRfc`.

## Model

| member | source | states |
|---|---|---|
| WatcherRuns.NoChangeIsLost | server/src/project_watcher.rs:176-455 | in every reachable world, whatever current callbacks reported of a project and no accepted event has told since is in a queued record, in a dirty batch that covers it, behind a raised flag, or owed by a pending re-install |
| WatcherRuns.RunKeeps | server/src/project_watcher.rs:176-538 | the invariant behind it (generations, tombstones, queue, batches, debt) survives any run of sends, callbacks, receives, turns and ticks |
| WatcherRuns.TurnHolds | server/src/project_watcher.rs:307-455 | a loop turn, whatever fails in it, keeps every held change or delivers it in an accepted event |
| WatcherRuns.FlushSignalCovers | server/src/project_watcher.rs:582-596 | the event of a flush covers everything its batch covered |
| WatcherRuns.QuietProjectsAreSettled | server/src/project_watcher.rs:176-455 | with nothing queued and everything succeeding, two loop turns a retry delay and a flush window apart leave nothing untold |
| WatcherRuns.RemovedStaysSilent | server/src/project_watcher.rs:238-258 | after an unregister no run calls the sink for the project, whatever is queued or reported by old callbacks |
| WatcherRuns.RegistrationsAndRetriesAreDisjoint | server/src/project_watcher.rs:209-247 | no project is both registered and in retries; a removed one is in neither and has no batch |
| WatcherTiming.DirtyBatchesComeDue | server/src/project_watcher.rs:570-580 | a dirty batch comes due at most one flush window from now, is due exactly from then on, and the deadline waits exactly for it |
| WatcherTiming.SignalIffPaths | server/src/project_watcher.rs:249-305 | a record leaves its batch with an event to send exactly if it lists a path or there was one before |
| WatcherTiming.DirtyBatchesCanBeSent | server/src/project_watcher.rs:400-455 | in a run without empty events every dirty batch has an event to send |
| WatcherTiming.EmptyEventNeverClears | server/src/project_watcher.rs:424-484 | a run of four steps with one event without paths leaves a batch that is due for ever and never sent |
| WatcherTiming.AllTouch | server/src/project_watcher.rs:138-156 | an ingested record and a full merge have the same effect on a batch's times: the delay is gone, the first event stays |
| WatcherTiming.RetryComesDue | server/src/project_watcher.rs:424-455 | after a failed flush a batch is due a full window later; once touched, exactly when it has been quiet since or pending for its whole window |
| WatcherTiming.BoundaryKeptIff | server/src/project_watcher.rs:570-580 | exactly when a touched batch is not due before the boundary its failed flush set |
| WatcherTiming.EarlyRetry | server/src/project_watcher.rs:424-455 | a batch that failed at 250 ms is due at 501 ms after an event at 251 |
| WatcherTiming.FailuresWaitLonger | server/src/project_watcher.rs:332-398 | consecutive failures to watch are counted until one succeeds, and the next retry waits one second doubled with each, up to a minute |
| WatcherTiming.BackoffDoubles | server/src/project_watcher.rs:540-547 | the delay is one second for the first failure and twice the one before for each more, never over a minute |
| WatcherEvents.TurnTells | server/src/project_watcher.rs:176-455 | after any run the calls of a loop turn are exactly one telling everything for a watch installed again, and the event that what happened since the last accepted flush calls for, if it is time |
| WatcherEvents.RunMirrored | server/src/project_watcher.rs:176-455 | in any run the batch of a project is what happened to it since the last accepted flush: the reports with their paths, the unknown changes and the refused events |
| WatcherEvents.BatchSends | server/src/project_watcher.rs:570-596 | everything, if something was unknown, refused, outside both files and .git, or over the cap; else the sorted minimal files, if any was reported; else the git event, if .git was; and due at the times the reports set |
| WatcherEvents.GitChangedIff | server/src/project_watcher.rs:582-596 | the git event is called for exactly if all that happened are reports of paths below .git, of at least one |
| WatcherEvents.ClassIs | server/src/workspace.rs:2178-2224 | a native path is git's exactly if .git is its first name below the root, a file's if all its names are good and the disk keeps it inside, and neither otherwise |
| WatcherEvents.StaysWithinIff | server/src/project_watcher.rs:272-305 | the cap is passed exactly if, at some report, more than 256 paths lay below no other |
| WatcherEvents.OthersTellNothing | server/src/project_watcher.rs:200-305 | no step but a loop turn calls the sink |
| WatcherEvents.AcceptedEventSettles | server/src/project_watcher.rs:424-455 | an accepted event ends the batch and lowers the flag of the current callback only; a refused one lowers none |
| WatcherEvents.ReportIsQueuedOrFlagged | server/src/project_watcher.rs:496-538 | what a callback reports is queued as it is, or as unknown, or the flag of its generation goes up, which happens only for a rescan, more than 256 paths or a full channel |
| WatcherTiming.SecondRegistrationWouldLose | server/src/project_watcher.rs:209-236 | registering a second time would lose what the first callback had queued |
| WatcherPayload.OrdinaryComponents | server/src/workspace.rs:2178-2224 | an ordinary watched path is the components of the native path below the root |
| WatcherPayload.CoveringIsAncestry | server/src/project_watcher.rs:549-560 | covering of relative paths is ancestry of the native paths |
| WatcherPayload.OrdinaryIff | server/src/workspace.rs:2178-2224 | before the disk is asked, a path is ordinary exactly if it lies below the root, with safe names only, and does not start with .git |
| WatcherPayload.StateIsOrdinary | server/src/workspace.rs:2178-2224 | below .state paths are ordinary like any others |
| WatcherPayload.AccumulatedPayload | server/src/project_watcher.rs:249-305 | the event of any number of records of ordinary paths lists, in order, exactly the minimal elements of all of them, or everything once they went over the cap |
| PathSets.InsertPath | server/src/project_watcher.rs:549-560 | retaining, looking for a cover and pushing computes the insertion |
| PathSets.CoversIsComponentPrefix | server/src/project_watcher.rs:549-560 | the byte-level test is exactly a prefix of components |
| PathSets.InsertedAllIsFrontier | server/src/project_watcher.rs:549-560 | inserting any sequence of paths leaves exactly the minimal ones under ancestry, each once |
| PathSets.PayloadIsAFunctionOfTheSet | server/src/project_watcher.rs:582-596 | the sorted payload depends on the set of paths only, not on order or repetition |
| ProjectWatcher.ClassifyWatchedPath | server/src/workspace.rs:2178-2224 | the component loop computes the classification |
| ProjectWatcher.AbsorbRecord | server/src/project_watcher.rs:272-305 | the path loop, with the cap on accumulated paths, computes what a record does to a batch |
| ProjectWatcher.Worker.RecordUnavailable | server/src/project_watcher.rs:381-398 | the whole new state after an unavailable watch, and that no other project changes |
| ProjectWatcher.Worker.RegisterProject | server/src/project_watcher.rs:209-236 | the whole new state after a registration, and that no other project changes |
| ProjectWatcher.Worker.UnregisterProject | server/src/project_watcher.rs:238-247 | the whole new state after an unregister, and that no other project changes |
| ProjectWatcher.Worker.Ingest | server/src/project_watcher.rs:249-305 | the whole new state after a record, stale ones ignored, and that no other project changes |
| ProjectWatcher.Worker.PollOverflow | server/src/project_watcher.rs:307-318 | every flagged project is merged full, in one pass over the registrations |
| ProjectWatcher.Worker.TryInstall | server/src/project_watcher.rs:332-379 | a re-install raises the generation and owes a full event until the sink accepts it |
| ProjectWatcher.Worker.RetryDue | server/src/project_watcher.rs:320-330 | exactly the projects whose retry is due are re-installed |
| ProjectWatcher.Worker.Flush | server/src/project_watcher.rs:424-455 | the whole new state after a flush, sent, refused or with nothing to send, and that no other project changes |
| ProjectWatcher.Worker.FlushDue | server/src/project_watcher.rs:400-410 | exactly the due batches are flushed |
| ProjectWatcher.Worker.Turn | server/src/project_watcher.rs:176-181 | the three passes of a loop turn, for every project at once |
| ProjectWatcher.Worker.Handle | server/src/project_watcher.rs:200-207 | one command leaves the queue and does to every project what it should |
| ProjectWatcher.Worker.Callback | server/src/project_watcher.rs:496-538 | a callback queues its record or, with the channel full, raises the flag of its generation |
| ProjectWatcher.Worker.NextDeadline | server/src/project_watcher.rs:457-484 | the wait is the least of the poll interval and what remains to any due batch or retry |
| TerminalRing.TerminalBuffer.Push | server/src/terminal.rs:771-778 | dropping bytes from the front one at a time leaves the last bytes of the stream with the new ones appended |
| TerminalRing.TerminalBuffer.Snapshot | server/src/terminal.rs:780-791 | a read gives the whole stream behind its cursor and moves the cursor to the end, or says it was truncated, exactly if the cursor is more than a capacity behind, and gives the last bytes |
| TerminalRing.ReadsAreTheStream | server/src/terminal.rs:761-800 | over any run of pushes and reads the ring is the last bytes of the stream, and a client never told of truncation has received exactly the stream between its cursors |
| TerminalRing.TruncatedIffBytesAreGone | server/src/terminal.rs:780-791 | truncated holds exactly if bytes after the cursor are gone |
| Sanitizer.SanitizeTerminalContext | server/src/terminal.rs:802-876 | the index-and-state loop computes the filter, or reports binary data |
| Sanitizer.CleanIsFed | server/src/terminal.rs:802-876 | the scan with look-ahead for CR LF equals a transducer fed one byte at a time |
| Sanitizer.SanitizedIsSequential | server/src/terminal.rs:802-876 | the text of longer output extends the text of shorter output, wherever the cut falls |
| Sanitizer.CleanIsPrinted | server/src/terminal.rs:802-876 | no escape, carriage return or control other than tab and line feed comes out |
| TerminalText.SanitizedIsText | server/src/terminal.rs:802-876 | output made of characters, line ends, controls and whole sequences comes to the characters and one feed for each line end; sequences vanish whole, the last even if cut |
| TerminalText.OutputIsItems | server/src/terminal.rs:802-876 | all output without NUL reads as such a list |
| TerminalText.SanitizedIff | server/src/terminal.rs:802-876 | output is sanitized exactly if it has no NUL and its items come to UTF-8, and to that |
| TerminalContext.BoundTerminalContext | server/src/terminal.rs:878-923 | the line and byte loops compute the bounded context, or its error |
| TerminalContext.RecentIsLongestTail | server/src/terminal.rs:878-923 | a recent capture is the longest tail of whole characters within both limits, marked truncated exactly if it is not all |
| TerminalCaptures.TerminalManager.CaptureContext | server/src/terminal.rs:555-620 | what a capture records, with what its revision digests, or its error |
| TerminalCaptures.RevisionDetermines | server/src/terminal.rs:925-943 | the bytes a capture's revision digests determine its terminal, kind, cursor and content |
| TerminalCaptures.TerminalManager.RetainContextCapture | server/src/terminal.rs:622-639 | a capture is kept under a free id within the cap and nothing else changes |
| TerminalCaptures.TerminalManager.ResolveContextCapture | server/src/terminal.rs:648-688 | resolving computes the resolution of the present sessions and captures |
| TerminalCaptures.TerminalManager.Close | server/src/terminal.rs:724-749 | closing removes the terminal and its captures; a failed kill keeps the captures |
| TerminalCaptures.RunInv | server/src/terminal.rs:555-749 | every capture stays sound through any run of output, captures, exits and closes |
| TerminalCaptures.ObservedBytesAreStillThere | server/src/terminal.rs:648-688 | once the cursor check passes, the observed bytes are in the ring verbatim |
| TerminalCaptures.ContentStays | server/src/terminal.rs:648-688 | a text found in a window is found in every longer window that sanitizes |
| TerminalCaptures.ResolvesExactly | server/src/terminal.rs:648-688 | in every reachable world, exactly when a capture resolves and with which error it does not; the substring test never fails by itself |
| TerminalCaptures.SplitCharacterHidesASelection | server/src/terminal.rs:648-688 | output cut inside a character hides a selection until the rest arrives |
| SelectionCaptures.SelectionTaken | server/src/terminal.rs:577-600 | a selection is kept exactly if it is not empty or over 64 KiB, and its text without all outer line feeds is not empty, stands in the text of the window and fits 16 KiB and 120 lines |
| SelectionCaptures.RecentTaken | server/src/terminal.rs:601-611 | without a selection exactly the longest tail of whole characters that fits is kept, marked truncated if it is not everything |
| SelectionCaptures.WhyNotCaptured | server/src/terminal.rs:555-611 | which error each refused capture gets, in terms of the sanitized texts |
| GitCollector.StatusOutputCollector.Push | server/src/git.rs:858-885 | pushing a chunk is taking its bytes one after the other, up to the limit |
| GitCollector.StatusOutputCollector.Finish | server/src/git.rs:887-892 | what is kept is the output so far, truncated if a record was pending |
| GitCollector.CollectStatusOutput | server/src/git.rs:809-821 | what the read loop collects is a function of the whole output, however it was cut into chunks |
| GitCollector.CollectedIsLongestPrefix | server/src/git.rs:835-893 | the result is the longest prefix of whole records, renames with their original path, within both limits, and truncated exactly if that is not all |
| GitStatus.ParseStatus | server/src/git.rs:955-978 | the record loop computes the parse |
| GitStatus.TruncatedStatusIsAPrefix | server/src/git.rs:858-1040 | what is kept of output that parses, parses to a prefix of its files of at most the allowed number |
| GitStatus.FlagIsCarried | server/src/git.rs:955-978 | the truncation flag changes nothing else |
| GitPrint.ParsingUndoesPrinting | server/src/git.rs:955-1044 | for any list of entries and headers of Porcelain Format Version 2, parsing what is printed gives back paths, original paths, conflict flags, a status or none for index and work tree, M for a submodule with changes of its own, and the branch, if the head is not detached |
| GitPrint.EmptyOriginalBreaksTruncation | server/src/git.rs:858-1040 | a rename with an empty original path parses in full but not after truncation |
| GitStatus.CutDoesNotParse | server/src/git.rs:858-1040 | output with such a rename has a limit at which what is kept does not parse |
| GitStatus.SurvivesIffOriginalsPresent | server/src/git.rs:858-1040 | output that parses survives every truncation exactly if its renames name their original paths |
| GitPrint.AcceptedIsPrinted | server/src/git.rs:980-1044 | a record that parses has the fields of its kind, with path, original path, conflict and both statuses read from their places |
| GitPrint.FieldsParseIff | server/src/git.rs:980-1044 | fields in the number of their kind parse exactly if there are two letters and the paths are text, the first not empty |
| GitTruncation.TruncatedStatusIs | server/src/git.rs:780-1044 | of the entries git prints, the collector keeps those that fit, up to the last file allowed, says whether there were more, and they parse to what they tell |
| GitDiff.RenderFileDiff | server/src/git.rs:590-660 | the appends of one file compute its rendering or why there is none |
| GitDiff.RenderFullDiff | server/src/git.rs:558-588 | the loop over changes computes the rendering of all |
| GitDiff.BuildDiffCandidates | server/src/git.rs:442-476 | the loop computes the candidate list, the first git error ending it |
| GitDiff.ListingAndResolvingAgree | server/src/git.rs:442-556 | a listed candidate, of all files or one, is enabled exactly if resolving it succeeds, and then with the same candidate and revision; otherwise resolving fails for the reason listed |
| GitDiff.ResolvedContentIsBounded | server/src/git.rs:510-556 | resolved content is text within its byte and hunk limits, and its candidate describes it |
| GitDiff.OthersAreInvalid | server/src/git.rs:510-530 | resolving names a path invalid exactly if no change has it or it leads out of the work tree |
| DiffAnswers.FileIsRenderedAs | server/src/git.rs:590-679 | a file renders exactly as what git prints against nothing, if untracked, and else as its staged patch followed by that of its work tree, within the limit |
| DiffAnswers.AllAreRenderedAs | server/src/git.rs:558-588 | all files render exactly as one patch each, one after the other, each as text and none built, within 64 KiB and 128 hunks |
| DiffAnswers.FileIsOffered | server/src/git.rs:478-508 | a file is offered exactly if its patch is not empty, text without a binary part, and within 32 KiB and 64 hunks, with its counts |
| DiffAnswers.AllAreOffered | server/src/git.rs:442-476 | all files are offered at once exactly if there are at most 32 and their patches fit, with their counts |
| DiffAnswers.HunksAre | server/src/git.rs:749-754 | the hunk count is the number of lines that start a hunk |
| DiffAnswers.RevisionTells | server/src/git.rs:723-730 | the bytes of a revision determine path and content |
| DiffReasons.WhyNotOffered | server/src/git.rs:478-508 | why a listed file is not offered: it is built, its patch too long, binary, empty or of too many hunks |
| DiffReasons.WhyNotAllOffered | server/src/git.rs:442-588 | why all files are not: too many, no content, too many hunks, or the first file that is built, does not fit or cannot be shown |
| DiffReasons.RefusedRevisionTells | server/src/git.rs:705-747 | two lists of changes refused for one reason, with content, have one revision only if they are the same |
| TextPages.ReadWindow | server/src/workspace.rs:1258-1273 | seeking in a large file and cutting a whole one give the same bytes, and each its revision |
| TextPages.ReadTextPage | server/src/workspace.rs:1244-1320 | reading with a window of three more bytes and skipping computes the page and the revision of the same file |
| TextPages.RevisionTellsText | server/src/workspace.rs:1226-1243 | pages with one revision, of files that are not large, show one text |
| TextPages.StartIsFirstBoundary | server/src/workspace.rs:1274-1285 | in a text file a page starts at the first character boundary at or after its offset |
| TextPages.PageOfText | server/src/workspace.rs:1274-1320 | from any offset of a text file the page is text, ends between two characters and holds all characters that fit |
| TextPages.NextIsLater | server/src/workspace.rs:1312-1320 | in any file the next offset is later, so following it ends |
| TextPages.FollowingReadsTheRest | server/src/workspace.rs:1244-1320 | following next offsets, with any page size at each, reads the rest of a text file exactly |
| TextPages.PagesAreTheFileIffText | server/src/workspace.rs:1244-1320 | the pages are all text and add up to the file exactly if the file is text |
| TextPages.TextIffNothingSkipped | server/src/workspace.rs:1274-1285 | a file whose pages are all text is text exactly if no page was asked for at a continuation byte |
| TextPages.StrayByteIsDropped | server/src/workspace.rs:1274-1285 | a file that is not text whose pages all are, with a byte missing |
| TextPages.ReadTerminalTranscript | server/src/workspace.rs:297-319 | the trimming loop leaves the longest suffix of the last bytes that is text |
| TextPages.TextTailLosesOnlyTheCut | server/src/workspace.rs:297-319 | of a text log at most three bytes are lost, up to the next boundary |
| TextPages.TailSurvivesIffItEndsWhole | server/src/workspace.rs:312-318 | something is left exactly if the last character is whole |
| TextPages.CutLogReadsAsNothing | server/src/workspace.rs:312-318 | a log that stops inside a character reads as nothing |
| TopHits.Keep | server/src/workspace.rs:1448-1456 | push and pop of the worst keep the first hits of all so far, and drop one exactly if there are more than the cap |
| TopHits.Hits | server/src/workspace.rs:1463-1476 | sorting the heap gives its hits in rank order, whatever order it gave them in |
| TopHits.OrderedUnique | server/src/workspace.rs:1463-1476 | the rank order of a collection of hits is unique |
| FileSearch.VisitLevel | server/src/workspace.rs:1355-1412 | the nested loops with their early end visit exactly the entries the budget allows |
| FileSearch.SiftLevel | server/src/workspace.rs:1429-1457 | the entry loop keeps the best matches and collects the next level |
| FileSearch.SearchLevel | server/src/workspace.rs:1355-1461 | one level, with the failure of git's answer, does a step of the walk |
| FileSearch.SearchProjectFiles | server/src/workspace.rs:1330-1477 | the hits are the first of the visited matches by modification time then path, and truncated says the walk or the cap left something out |
| FileSearch.VisitsWithinBudget | server/src/workspace.rs:1372-1378 | no more entries are visited than the budget |
| FileSearch.CompleteWalkMeets | server/src/workspace.rs:1346-1462 | a walk not cut short meets every match at any depth |
| FileSearch.WalkMeetsOnlyMatches | server/src/workspace.rs:1346-1462 | however cut short, a walk meets only matches of files it may see |
| FileSearch.SearchFinds | server/src/workspace.rs:1330-1477 | a hit is a match, and without truncation every match there is is a hit |
| FileSearch.OfferedChild | server/src/workspace.rs:1379-1410 | what the search looks at is listed as a file, or as a directory neither generated nor a repository of its own, and is not ignored |
| FileSearch.DirectoryPath | server/src/workspace.rs:1379-1410 | a directory entered is as deep as its path is long, with no hidden or generated name on the way |
| FileSearch.FilePath | server/src/workspace.rs:1379-1410 | so is a file found |
| SearchAnswers.AdmittedIffShown | server/src/workspace.rs:1379-1410 | an entry is admitted exactly if it is named, not hidden, and a file, or a directory neither built nor a repository of its own |
| SearchAnswers.SearchAnswersFiles | server/src/workspace.rs:1330-1477 | a search returns only files its directories list, less than 16 levels down, in whose path every word occurs; without truncation, every such file there is |
| SearchAnswers.HitsAreTheFirst | server/src/workspace.rs:1463-1476 | hits come with the latest modification first, then by the bytes of the path, within cap and budget |
| SearchAnswers.LeftOutRankBelow | server/src/workspace.rs:1448-1476 | if the walk ended and a match was left out, there are as many hits as the cap and each ranks before it |
| SearchAnswers.NotTruncatedForNothing | server/src/workspace.rs:1330-1477 | in a tree of less than 16 levels of which git answers, with enough budget a search is truncated exactly if there are more matches than the cap |
| ComposerCatalog.CountKeys | server/src/composer_catalog.rs:547-550 | the counting loop counts every key |
| ComposerCatalog.ProjectCommands | server/src/composer_catalog.rs:547-586 | the loop with its emitted set gives one item for each name, disabled if several commands have it |
| ComposerCatalog.ProjectTrusted | server/src/composer_catalog.rs:598-658 | the same for contributed rows by kind and identity |
| ComposerCatalog.ProjectCatalog | server/src/composer_catalog.rs:519-665 | the projection as a whole |
| ComposerAgreement.DispatchedIsAdvertised | server/src/composer_catalog.rs:886-980 | for any snapshot: what is dispatched is current, listed, enabled and short enough, and stands for exactly one advertised command |
| ComposerAgreement.ItemIdsDistinct | server/src/composer_catalog.rs:519-665 | listed items have distinct ids |
| ComposerAgreement.CommandEnabledIffDispatchable | server/src/composer_catalog.rs:519-1040 | a listed command is enabled exactly if some arguments dispatch it |
| ComposerAgreement.EnabledCommandDispatches | server/src/composer_catalog.rs:834-1040 | arguments succeed for an enabled command exactly if within the cap and there are any just when it takes input |
| ComposerAgreement.ClaudeRowIs | server/src/composer_catalog.rs:678-755 | a Claude skill not disabled names exactly one command, with a supported input |
| ComposerAgreement.CodexRowIs | server/src/composer_catalog.rs:757-820 | a Codex skill is invoked by structured input for the Codex adapter |
| ComposerAgreement.SkillDispatchableIffIdentityUnique | server/src/composer_catalog.rs:519-980 | an enabled skill can be dispatched exactly if no other row of the payload has its identity |
| ComposerAgreement.EnabledSkillNeverRuns | server/src/composer_catalog.rs:519-980 | a payload whose skill is listed as enabled and never dispatches |
| ComposerPayload.CommandsAre | server/src/composer_catalog.rs:414-457 | the commands are exactly those well formed among the first 256 entries, in their order, each as its entry says |
| ComposerPayload.ParsedIffDeclared | server/src/composer_catalog.rs:414-457 | which value declares which command, with which kind of input |
| ComposerPayload.ClaudeRowsAre | server/src/composer_catalog.rs:678-755 | the rows of a Claude agent are exactly those well formed among its first 64 skills, disabled if no, several or an unsupported command has the identity, or as the provider says |
| ComposerPayload.CodexRowsAre | server/src/composer_catalog.rs:757-820 | those of a Codex agent likewise, known by an absolute path, with the skill as structured input |
| ComposerListing.CatalogIs | server/src/composer_catalog.rs:519-665 | the catalog is exactly an item for the first command of each name no valid skill presents, in order, then for the first of each kind and identity of the valid rows there is room for, with what each shows |
| ComposerListing.ListedIffAdvertised | server/src/composer_catalog.rs:527-586 | a name has an item as a command exactly if the agent advertises it and no valid skill invokes that very name by a prompt template |
| ComposerListing.OthersListAll | server/src/composer_catalog.rs:527-586 | a Codex or OpenCode agent has an item for exactly the names it advertises |
| ComposerListing.RowIsListed | server/src/composer_catalog.rs:587-658 | a valid row among the first 64 has an item of its kind and identity while there is room |
| ComposerListing.TrimIs | server/src/composer_catalog.rs:822-832 | trimming takes the white space at both ends and nothing else |
| ComposerListing.CodexSkillSends | server/src/composer_catalog.rs:947-963 | a Codex skill is shown as its name after a dollar sign with its arguments, prompts with the arguments, and goes with the skill as structured input |
| ComposerListing.RefusedFor | server/src/composer_catalog.rs:886-915 | the order of the refusals: length, revision, missing, disabled |
| ComposerListing.CommandRefuses | server/src/composer_catalog.rs:834-1040 | an enabled command refuses just missing and needless arguments, and else sends its text |
| ComposerListing.SkillRefuses | server/src/composer_catalog.rs:917-946 | an enabled skill is missing exactly if no row of the payload has its id, and disabled exactly if two have it or one that is disabled |
| Digests.FeedParts | server/src/composer_catalog.rs:1237-1260 | feeding the digest part by part gives the tag and the length-prefixed parts |
| OpaqueIds.OpaqueItemPreimage | server/src/composer_catalog.rs:1237-1260 | what an item id digests |
| OpaqueIds.OpaqueContextPreimage | server/src/composer_catalog.rs:1059-1077 | what the id of a context digests: for files and directories the path alone |
| OpaqueIds.OpaqueRevisedPreimage | server/src/composer_catalog.rs:1079-1105 | what it digests of a context with a revision |
| Digests.PartsInjective | server/src/composer_catalog.rs:1237-1260 | no two lists of parts shorter than 2^64 bytes are fed as the same bytes |
| Text.EncodeInjective | server/src/composer_catalog.rs:1237-1260 | strings with the same bytes are the same |
| OpaqueIds.ItemPreimageInjective | server/src/composer_catalog.rs:1237-1260 | the digested bytes determine all six parts of an item's key |
| OpaqueIds.ItemIdsInjective | server/src/composer_catalog.rs:1237-1268 | ids of prefix and digest tell all items apart, if the digest does not collide |
| OpaqueIds.PrefixTells | server/src/composer_catalog.rs:1262-1268 | an id begins with what kind of item it is of |
| OpaqueIds.RegisteredPreimageInjective | server/src/agent_store/composer.rs:169-321 | the digested bytes of registered contexts, by a path or at a revision of 64 bytes, determine project, conversation, kind and path or selector and revision |
| OpaqueIds.RevisedPreimageInjective | server/src/composer_catalog.rs:1079-1105 | so do they for revisions of any length, where no selector has a NUL |
| OpaqueIds.SharedIffNul | server/src/composer_catalog.rs:1079-1105 | of the encoding alone: with revisions of any length, two contexts share their bytes exactly if there is a NUL in a selector or revision; no such revision is registered |
| AgentRefresh.AgentCatalog.RefreshLocked | server/src/agent_discovery.rs:157-163 | what a call does and returns under the lock |
| AgentRefresh.LockedStepsAreTheMethod | server/src/agent_discovery.rs:157-163 | uninterrupted, the steps of the interleaved model are that method |
| AgentRefresh.NextKeeps | server/src/agent_discovery.rs:154-164 | every step of any caller keeps the protocol's invariant |
| AgentRefresh.OneDiscovers | server/src/agent_discovery.rs:154-164 | over all interleavings at most one call discovers at a time |
| AgentRefresh.ReturnsFresh | server/src/agent_discovery.rs:154-164 | every call returns a catalog installed at a generation above the one it observed |
| AgentRefresh.OneInstallPerGeneration | server/src/agent_discovery.rs:154-164 | the calls that observed one generation install once between them |
| AgentRefresh.OneDiscoveryPerGeneration | server/src/agent_discovery.rs:154-164 | they start exactly one discovery that is not abandoned; in a run without drops, one at all |
| AgentRefresh.SomeoneMoves | server/src/agent_discovery.rs:154-164 | while a call has not ended, some call can take a step |
| FileUri.PercentDecode | server/src/shared_media.rs:137-152 | the index loop computes the decoding, of text only |
| FileUri.FileUriPath | server/src/shared_media.rs:120-135 | the prefix, reserved-character and NUL checks compute the path |
| FileUri.RoundTrip | server/src/shared_media.rs:120-152 | every absolute path of text without NUL comes back from every URI of it, with or without localhost, whichever characters were escaped and in whichever case |
| FileUri.EncodedIsText | server/src/shared_media.rs:120-152 | escaping characters whole or not at all keeps a URI text |
| FileUri.ResultIsAbsolute | server/src/shared_media.rs:120-135 | whatever is accepted is absolute, text and without NUL |
| FileUri.AcceptsSignedBeyondRfc | server/src/shared_media.rs:137-152 | what RFC 3986 decodes is decoded the same, and what else is accepted has a plus sign for a digit |
| FileUri.SignedExample | server/src/shared_media.rs:137-152 | a plus sign decodes as a digit |
| FileUri.AcceptedIff | server/src/shared_media.rs:120-135 | exactly the URIs of the scheme, without a host or with localhost, whose encoded absolute path decodes to text without NUL are accepted |
| FileUri.Refused | server/src/shared_media.rs:120-129 | a query, a fragment, another scheme and another host are refused |
| Text.ValidIsEncoded | server/src/workspace.rs:1290-1299 | all valid UTF-8 is the encoding of a string |
| Text.EncodedIsValid | server/src/composer_catalog.rs:1237-1260 | the bytes of a string are valid UTF-8 |
| Utf8.ValidUpToIsLongest | server/src/workspace.rs:1290-1299 | the length a text check reports as valid is the longest valid prefix |
| Utf8.CutIsIncomplete | server/src/workspace.rs:1290-1299 | text cut anywhere ends in less than four bytes of one character |

## Left out

- Shutdown and channel disconnection: `flush_all_pending` runs without draining the queue, though ADR 0208 promises a flush of what is pending.
- Interleavings finer than a loop turn of the watcher, poisoned mutexes and thread panics.
- `u64` saturation of terminal cursors and wrap-around of generations.
- Symlink, inode and containment checks: whether a watched path escapes, and what a directory lists, are parameters.
- Running git and reading its error output; the exit status decides as in the source, messages are constants.
- The user-interface diff of `git.rs:383-440`, mutations and commits.
- ProjectWatcher.Worker.Callback: an overflow flag is a set of generations whose flag is raised, instead of one shared atomic for each callback.
- Status letters outside ASCII, which git does not print: the revision of a refused list has one byte for each.
- TerminalCaptures.TerminalManager.CaptureContext: sessions hold their ring as a value, so the sharing of a `TerminalBuffer` with the reader thread and its lock are not modelled.
- TextPages.RevisionTellsText: says nothing of files over 8 MiB, whose revision is only their size and the second they were modified in.
- Lossy decoding of terminal output for clients, and transcripts appended on disk.
- Lowercasing in a search is a parameter; so is the time a file was modified.
- TopHits.Keep: the heap is a bag with a pop of the worst, not an array.
- Catalog entries of contexts, drafts and their validation, and the legacy command path without an item limit.
- Numbers of a payload are integers; a JSON object keeps one value for each key.
- SHA-256 and hexadecimal ids, SQLite, HTTP handlers, MCP tools and everything in the browser.
