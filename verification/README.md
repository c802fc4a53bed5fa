# gbrain commands: a verified model

A Dafny model of the step-by-step cores of the `gbrain` command line, with proofs of what they keep
over whole runs. `dafny verify dfyconfig.toml` checks everything.

| module | models |
|---|---|
| `ChunkStore`, `EmbedMerge`, `WorkerPool`, `EmbedPool`, `EmbedStale` | `gbrain embed --stale`: keyset paging over a listing that shrinks while it is paged, grouping by composite key, an interleaved worker pool doing read-merge-write, failures and a budget abort |
| `EmbedBackoff` | the rate-limit retry around one embedding call |
| `MigrationLedger` | `gbrain apply-migrations`: the append-only ledger, derived status, plan, run loop and retry markers, and the doctor's second reading of the same ledger |
| `Backlinks` | `gbrain check-backlinks`: finding and fixing missing back-links by editing pages, round after round |
| `AgentLogs` | `gbrain agent logs --follow`: polling two growing logs with a watermark |
| `AutopilotLease`, `AutopilotLoop`, `AutopilotInstall` | the autopilot's lock file as a timed lease, its main loop, and the text edits of install and uninstall |
| `Remediate` | `gbrain doctor --remediate`: submit, wait, cascade, plan anew |
| `EvalResume` | crash-resume of `gbrain eval longmemeval` |
| `Glob`, `SelectE2E` | the diff-based test selector and its glob-to-regex compiler |
| `CliArgs` | the argument loop that maps a command line to parameters |
| `Jaccard` | the overlap scores of `eval replay` and `eval whoknows` |
| `Changelog` | version comparison and the changelog scan of `check-update` |
| `Text`, `Decimal`, `Collections` | string operations, decimal numerals, and the option type and sequence facts the others share |

Databases, clocks, planners, embedding calls, migration orchestrators and queues are parameters or
nondeterministic choices, so every theorem holds for whatever they answer. Where the source loops over
variables or mutates an object, there is a method or a class with fields proved against a specification
function, and the theorems are about that function.

## Where the code does something other than it says

- `src/commands/apply-migrations.ts:426` promises registry order; line 420 runs all partials first, then all
  pending. The two agree exactly if no pending version is registered before one to be resumed
  (`MigrationLedger.RegistryOrderExactly`, `MigrationLedger.PartialOvertakesPending`). The model follows the code.
- `src/commands/apply-migrations.ts:432` says the runner owns the ledger write. The orchestrators of 0.16.0 and
  0.18.0 still append their own entry when they end complete or partial (`src/commands/migrations/v0_16_0.ts:105-116`,
  `src/commands/migrations/v0_18_0.ts:200-211`), and the runner then appends again. A second `complete` is dropped,
  a second `partial` is not, so such a version is wedged after two partial runs instead of three
  (`MigrationLedger.TwoPartialRunsWedge`; `MigrationLedger.WedgedAfterTwoRuns` says exactly when). The cap itself
  holds for every version (`MigrationLedger.AttemptsAreCapped`).
- `src/commands/doctor.ts:1506-1513` speaks of consecutive or trailing partials; lines 1517-1520 count all
  of them, so three partials and a retry marker are wedged for the doctor and pending for the runner
  (`MigrationLedger.PartialsThenRetryDisagree`; `MigrationLedger.ReadersAgreeExactly` says when the two agree).
  Line 1524 calls the wedged set a strict subset of the stuck set; after three partials and nothing else the
  two are equal (`MigrationLedger.WedgedCanBeAllStuck`).
- `src/commands/embed.ts:490-496` builds the merged chunks without the code-symbol and modality columns, and
  the upsert overwrites those columns. A run without failures clears them on exactly the pages that had a
  stale chunk in scope (`EmbedStale.SymbolsSurviveExactly`). Text, index and earlier vectors are safe. The merged
  chunks carry no model either, so `src/core/postgres-engine.ts:1640` writes its default model name for every
  chunk of the page, those whose vector was not recomputed among them; that column is not modelled.
- `src/commands/backlinks.ts:95` removes the first `.md` of a path, not the ending, and line 124 appends `.md`
  to the slug again. Where that does not give the path back, a link to the page's own path finds nothing
  (`Backlinks.OwnLinkFindsNothing`), and a reference that spells the slug is reported in every round and never
  fixed (`Backlinks.MisnamedPageNeverCloses`). Fixing converges for every content exactly if no entity page
  that wins its slug is like that (`Backlinks.ConvergesExactly`).
- `src/commands/eval-longmemeval.ts:175` tests the truth of the error text, so a failure with an empty message
  counts as done and is not retried; so does an empty answer (`EvalResume.RetriedExactly`). Line 173 reads a
  field of whatever the line parsed to, so a line holding `null` ends every resumed run
  (`EvalResume.NullStopsResuming`).
- `scripts/select-e2e.ts:10` says an unmapped source change runs everything. Lines 181-183 do so only when
  nothing at all was selected: beside a mapped file an unmapped one changes nothing
  (`SelectE2E.UncoveredFileIsSilent`; `SelectE2E.UncoveredBesideTest` is such a change).
- `src/cli.ts:466-472`: any parameter named `no_x` beside a boolean `x`, whatever its own type, cannot be set
  by its flag (`CliArgs.FlagRoundTripsExactly`; `CliArgs.NoFlagIsCaptured` is such a pair). No registered
  operation declares one: its only parameters of that form are `no_pull` and `no_embed`
  (`src/core/operations.ts:1837-1838`), with no boolean `pull` or `embed` beside them.
- `src/commands/autopilot.ts:457` doubles the interval on a healthy brain. With the default of 300 seconds that
  wait alone is the whole ten-minute lease, so a second instance can start
  (`AutopilotLease.DefaultIntervalLosesLease`). Line 458 halves it on an unhealthy brain, but not below a minute:
  with a base interval under a minute such a brain is looked at less often, not more
  (`AutopilotLease.IntervalGrowsWithScore`).
- `src/commands/check-update.ts:84` takes a `to` version and does not use it. On a descending changelog the
  result lies between the two versions exactly if the first captured heading is not newer than `to`
  (`Changelog.UpperBoundExactly`); a changelog with an unreleased section on top breaks the bound
  (`Changelog.UnreleasedExample`). A fourth version component is read by the heading pattern but ignored by
  the comparison (`Changelog.FourthPartIgnored`).

## Model

| member | source | states |
|---|---|---|
| `ChunkStore.Store.CountStaleChunks` | src/core/postgres-engine.ts:1693-1715 | a scan of the rows counts exactly the chunks whose embedding is NULL, within the source if one is given |
| `ChunkStore.Store.ListStaleChunks` | src/core/postgres-engine.ts:1717-1760 | the listed rows are stale, in scope and above the cursor, in (page, index) order, each once and with their own text, at most `limit`; a row left out means the limit was reached and comes after all that are listed |
| `ChunkStore.SortedIsUnique` | src/core/postgres-engine.ts:1740-1745 | a set of rows has one listing in keyset order |
| `ChunkStore.FirstIsUnique` | src/core/postgres-engine.ts:1740-1745 | that leaves one possible listing: the first `limit` of the sorted stale rows above the cursor |
| `ChunkStore.UpsertKeepsVector` | src/core/postgres-engine.ts:1655-1660 | a stored vector survives an upsert exactly if the input brings none and the same text, or that very vector; a chunk is stale afterwards exactly if none is brought and there was none or one of another text |
| `ChunkStore.UpsertReplaces` | src/core/postgres-engine.ts:1587-1594 | the page then has exactly the chunks of the input, and other pages keep theirs |
| `EmbedMerge.GroupByKey` | src/commands/embed.ts:466-474 | the map holds, per composite key in first-seen order, exactly the batch's rows of that key |
| `EmbedMerge.KeysFirstSeen` | src/commands/embed.ts:466-474 | the groups come in the order of their first rows |
| `EmbedMerge.KeyInjective` | src/commands/embed.ts:468 | `source::slug` determines source and slug when source ids have no colon |
| `EmbedMerge.ValidIdsSeparate` | src/core/sources-ops.ts:82 | ids that pass the source id pattern, the built-in one among them, keep the composite keys of different pages apart |
| `EmbedMerge.GroupsOfBatch` | src/commands/embed.ts:465-474 | where the batch's pages have different keys every group is one page's stale rows, no page has two groups, and the groups hold exactly the batch |
| `EmbedMerge.GroupedByPageExactly` | src/commands/embed.ts:465-474 | a batch is grouped by page exactly if its pages have different composite keys |
| `EmbedMerge.AfterCompose` | src/commands/embed.ts:485-497 | filling one set of chunks and then another is filling both at once, so the order of writes does not matter |
| `EmbedMerge.TokensExactly` | src/commands/embed.ts:495 | a token count that is there and not zero survives; any other on a written page becomes the text length over four, rounded up; a page without a filled chunk stays as it is |
| `EmbedMerge.WriteSettles` | src/commands/embed.ts:485-497 | reading a page nobody else wrote, merging and upserting fills exactly that group's chunks, each with the vector of its own text, and changes no other page |
| `WorkerPool.TakeOrderly` | src/commands/embed.ts:349-354 | one turn of one worker, claim or completion, keeps claims below the index, held by one worker and accounted for |
| `WorkerPool.EveryInterleavingProcessesEachTaskOnce` | src/commands/embed.ts:349-358 | for every schedule and width: claimed indices are 0..next-1, none is held twice, finished plus in flight equals claimed, and when all workers stop without an abort each task was finished once; width 0 processes nothing |
| `WorkerPool.NobodyRuns` | src/commands/embed.ts:357-358 | a pool with no workers stays as launched |
| `WorkerPool.WidthIsKept` | src/commands/embed.ts:357-358 | as many workers as asked for, or as tasks if those are fewer, and never more tasks in flight |
| `WorkerPool.StopEndsClaims` | src/commands/embed.ts:516 | once the workers see the abort no further task is claimed: only those in flight are finished |
| `EmbedPool.StepRefinesClaims` | src/commands/embed.ts:477-523 | every await of the embedding pool is a turn of the claim protocol, or leaves the claims alone |
| `EmbedPool.IdleClaims` | src/commands/embed.ts:516-518 | without an abort an idle worker claims the next group while there is one |
| `EmbedPool.AbortEndsClaims` | src/commands/embed.ts:516 | once the budget has fired an idle worker leaves instead |
| `EmbedPool.FailureCounts` | src/commands/embed.ts:499-506 | a failed await changes no row, counts its page unless the budget fired before, and frees the worker |
| `EmbedPool.FetchCarries` | src/commands/embed.ts:485-496 | between listing and re-reading, no interleaved write touched this group's page: the merge is computed from the page as listed |
| `EmbedPool.CommitAccounted` | src/commands/embed.ts:497-506 | the write step leaves the table with exactly the successful groups filled, and both counters agree with it |
| `EmbedPool.StepSound` | src/commands/embed.ts:477-523 | under any interleaving, with any await failing and the budget firing anywhere, each step keeps the table, the claims, the counters and what every worker carries |
| `EmbedPool.StepProgresses` | src/commands/embed.ts:512-523 | every step of a running worker lowers a bounded measure: no schedule goes on for ever |
| `EmbedPool.RunPool` | src/commands/embed.ts:512-523 | the pool over one batch ends with all workers stopped and the whole account intact |
| `EmbedPool.PoolFinished` | src/commands/embed.ts:512-523 | after it, without an abort every group either succeeded or failed, and the counters equal the rows filled |
| `EmbedStale.NextBatch` | src/commands/embed.ts:451-463 | after any subset of the first k stale rows was embedded, the listing above the cursor is exactly the rest of the initial listing |
| `EmbedStale.LoadBatch` | src/commands/embed.ts:451-463 | each batch is the next stretch of the initial listing, and a batch shorter than the page size ends it |
| `EmbedStale.VisitBatch` | src/commands/embed.ts:457-523 | one batch extends the account by its rows, its filled rows and its counters, whatever failed |
| `EmbedStale.RunStale` | src/commands/embed.ts:440-530 | the cursor loop ends, and without an abort the batches concatenated are the initially stale rows in order, each once; the embedded counter is the number of rows filled |
| `EmbedStale.ScopeExactly` | src/commands/embed.ts:393-398 | what is asked for: all stale chunks, or for a source id that is given and not empty those of that source |
| `EmbedStale.OtherSourcesKept` | src/commands/embed.ts:393-398 | a run for one source neither loads nor changes a chunk of another |
| `EmbedStale.EmbedAllStale` | src/commands/embed.ts:386-531 | the command: dry runs change nothing and count the stale chunks of the source asked for, or of all sources if the id is missing or empty; real runs load exactly those unless aborted, leave every other source's chunks as they were, and meet the same account |
| `EmbedStale.AfterLosesNothing` | src/commands/embed.ts:484-498 | indexes, texts and earlier vectors survive, each filled chunk has the vector of its own text, nothing else is filled |
| `EmbedStale.RunLosesNothing` | src/commands/embed.ts:440-530 | the same for a whole run, and what stays stale is the initially stale rows less those filled |
| `EmbedStale.CompleteRun` | src/commands/embed.ts:408-414 | without an abort the rows left stale are exactly those of failed groups; with no failure the run embeds as many as the dry run counted, and only then |
| `EmbedStale.RerunResumes` | src/commands/embed.ts:443-449 | a second run after an abort or failures fills disjoint rows, and the two together are one run that filled both |
| `EmbedStale.SymbolsSurvive` | src/commands/embed.ts:490-497 | a chunk's symbol columns survive exactly if they were empty or no group of its page succeeded, whatever failed or was cut short |
| `EmbedStale.SymbolsSurviveExactly` | src/commands/embed.ts:490-497 | in an uncut run without failures they survive exactly if they were empty or the page has no stale chunk in scope |
| `EmbedStale.SymbolsAreCleared` | src/commands/embed.ts:490-497 | a concrete page: embedding its stale chunk clears the symbols of its embedded one, whose vector stays |
| `EmbedStale.ColonMisfiles` | src/commands/embed.ts:465-498 | why the id check is needed: with a source id it refuses, two pages share a group of two rows, one chunk is filled, with the other page's vector |
| `EmbedBackoff.Detect429FromCause` | src/commands/embed.ts:579-587 | true exactly if one of the first five errors of the cause chain, cyclic or not, carries status 429 |
| `EmbedBackoff.DelayWithinJitter` | src/commands/embed.ts:597-607 | the delay stays within 30% of the hint padded by 500 ms, or of a minute without a hint, and is at least 350 ms |
| `EmbedBackoff.JitterSpans` | src/commands/embed.ts:604-605 | the middle draw leaves the delay as it is, the lowest takes 30% off, and a higher draw never shortens it |
| `EmbedBackoff.EmbedBatchWithBackoff` | src/commands/embed.ts:634-664 | at most six calls; every attempt before the last failed with a rate limit within budget; the result is that of the last, which is the sixth or one that succeeded, found the budget gone or failed otherwise; so the statement after the loop is unreachable |
| `EmbedBackoff.EmbedsExactly` | src/commands/embed.ts:639-661 | a batch is embedded exactly if one of the six attempts succeeds within budget and all before it were rate-limited |
| `MigrationLedger.ComparisonIsLexicographic` | src/commands/migrations/index.ts:60-70 | the sign of the comparison is the lexicographic order of major, minor and patch |
| `MigrationLedger.IndexCompleted` | src/commands/apply-migrations.ts:120-130 | the index maps each version to its statuses in ledger order |
| `MigrationLedger.StatusForVersion` | src/commands/apply-migrations.ts:145-166 | the backward rescan computes the verdict of the incremental state machine |
| `MigrationLedger.FollowIsRescan` | src/commands/apply-migrations.ts:150-165 | that machine is settled exactly if a complete entry exists, and otherwise counts the trailing partials |
| `MigrationLedger.StatusExactly` | src/commands/apply-migrations.ts:145-166 | done once a complete entry is in the ledger; otherwise wedged if the last three entries of the version are partial, pending if there are none or the last is a retry marker |
| `MigrationLedger.CompleteIsAbsorbing` | src/commands/apply-migrations.ts:136-143 | a completed version stays completed under any later appends |
| `MigrationLedger.BuildPlan` | src/commands/apply-migrations.ts:189-204 | the five lists, each in registry order: newer than the binary are exactly the registered versions that pass the filter and are lexicographically above it, and the other four hold exactly the rest, by status |
| `MigrationLedger.PlanIsPartition` | src/commands/apply-migrations.ts:189-204 | every version that passes the filter is in exactly one of the five lists |
| `MigrationLedger.Orchestrate` | src/commands/migrations/v0_18_0.ts:200-211 | 0.16.0 and 0.18.0 append their own complete or partial before they return, a failed write being swallowed; the others append nothing |
| `MigrationLedger.RunOne` | src/commands/apply-migrations.ts:437-494 | one migration: what the orchestrator and then the runner append for each outcome and each failed write, and that only a complete or partial that the runner recorded goes on |
| `MigrationLedger.RanExactly` | src/commands/apply-migrations.ts:436-494 | a chain runs a prefix of its list: all but the last ended as complete or partial and were recorded, and it stops short only after one that was not |
| `MigrationLedger.RunApplyMigrations` | src/commands/apply-migrations.ts:395-497 | runs partials then pending up to and including the first that stops the chain; fails exactly if some run did not go on; the ledger is what those attempts leave, the orchestrators' own entries included |
| `MigrationLedger.RegistryOrderExactly` | src/commands/apply-migrations.ts:420-436 | a run goes in registry order exactly if no runnable pending version is registered before a runnable one to be resumed |
| `MigrationLedger.PartialOvertakesPending` | src/commands/apply-migrations.ts:420 | two registered versions, the first pending and the second partial: the second runs first |
| `MigrationLedger.ResetWedged` | src/commands/apply-migrations.ts:309-327 | appends one retry marker for each wedged registered version and counts them |
| `MigrationLedger.RetryFreshens` | src/commands/apply-migrations.ts:295-303 | a forced retry makes a registered version pending unless it completed, touches no other, and does nothing for one that is not registered |
| `MigrationLedger.ResetUnwedges` | src/commands/apply-migrations.ts:309-327 | clearing the wedged versions makes exactly the registered wedged ones pending |
| `MigrationLedger.ExecTrack` | src/commands/apply-migrations.ts:295-327 | one invocation moves each version's state machine by at most two statuses, the orchestrator's own and the runner's, and says which |
| `MigrationLedger.ExecTrackExactly` | src/commands/apply-migrations.ts:295-327 | the same in terms of outcomes and writes: a recorded completion settles a version, any other recorded run of it counts once, or twice for 0.16.0 and 0.18.0 ending as partial; a retry marker starts afresh |
| `MigrationLedger.WedgedAfterTwoRuns` | src/commands/migrations/v0_18_0.ts:200-211 | after two recorded partial runs of a version without earlier attempts it is wedged exactly if it records itself and one of its own writes succeeded |
| `MigrationLedger.TwoPartialRunsWedge` | src/commands/migrations/v0_18_0.ts:200-211 | 0.18.0 ends as partial twice from an empty ledger, every write succeeding: it is wedged |
| `MigrationLedger.FailuresArePaidFor` | src/commands/apply-migrations.ts:154-163 | potential argument: every run without completing is paid for by a retry marker, by having left no entry at all, or by the attempts it uses up |
| `MigrationLedger.AttemptsAreCapped` | src/commands/apply-migrations.ts:154-163 | over any invocations a version runs without completing at most 3·(1 + retry markers) times, plus the runs that left no entry |
| `MigrationLedger.CompleteIsNeverRerun` | src/commands/apply-migrations.ts:420-436 | once complete, a version stays complete and no later invocation runs it |
| `MigrationLedger.CompletesNeverRepeat` | src/core/preferences.ts:147-158 | whatever is invoked, no second complete entry of a version is written right after one |
| `MigrationLedger.ScanLedger` | src/commands/doctor.ts:1484-1521 | the doctor's one-pass scan computes its stuck and wedged sets |
| `MigrationLedger.StuckExactly` | src/commands/doctor.ts:1484-1521 | stuck: a partial entry, no complete one, and no completed version from it on in lexicographic order; wedged: stuck with three partial entries |
| `MigrationLedger.RunnerWedgedIsDoctorWedged` | src/commands/doctor.ts:417-437 | unless superseded, what the runner calls wedged the doctor does too, and its wedged are stuck |
| `MigrationLedger.ReadersAgreeExactly` | src/commands/doctor.ts:1496-1521 | runner and doctor agree on a version exactly if it completed, or is superseded with fewer than three partials since the last retry marker, or is neither and has three since the marker or fewer than three in all |
| `MigrationLedger.ReadersAgreeWithoutRetries` | src/commands/doctor.ts:433-437 | in particular, without retry markers and not superseded they agree both ways |
| `MigrationLedger.DoctorIgnoresRetry` | src/commands/doctor.ts:1515-1521 | after a retry marker the runner starts afresh while the doctor still reports the wedge |
| `MigrationLedger.PartialsThenRetryDisagree` | src/commands/doctor.ts:1515-1521 | three partials and a retry marker: pending for the runner, wedged for the doctor |
| `MigrationLedger.SupersededWedgeDisagrees` | src/commands/doctor.ts:1499-1503 | three partials and a newer completed version: wedged for the runner, not for the doctor |
| `MigrationLedger.WedgedIsProperExactly` | src/commands/doctor.ts:1523-1525 | the doctor's wedged set is a proper part of its stuck set exactly if some stuck version has one or two partials |
| `MigrationLedger.WedgedCanBeAllStuck` | src/commands/doctor.ts:1523-1525 | three partials and nothing else: the two sets are equal and not empty |
| `Backlinks.BrainDir.PageScan` | src/commands/backlinks.ts:100-130 | one page contributes one gap per distinct existing target that lacks its file name |
| `Backlinks.BrainDir.FindBacklinkGaps` | src/commands/backlinks.ts:71-133 | the scan concatenates the pages' gaps in walk order |
| `Backlinks.GapsAreReferences` | src/commands/backlinks.ts:111-127 | a gap's target is people/ or companies/, the slug of a reference of that kind on its source page, and .md; it carries that reference's name and the page's title |
| `Backlinks.GapsExactly` | src/commands/backlinks.ts:111-127 | a page and a person are reported exactly if the page refers to that person, whose page lacks its file name; likewise for companies, for target pages that are well named and win their slug |
| `Backlinks.GapsDiffer` | src/commands/backlinks.ts:109-116 | on a walk without repetitions a page and a target are reported together at most once |
| `Backlinks.BasenameExactly` | src/commands/backlinks.ts:102 | the file name looked for is what follows the last slash |
| `Backlinks.BrainDir.FixBacklinkGaps` | src/commands/backlinks.ts:136-188 | the fix grouped by target leaves the files as one gap at a time would, writes nothing in a dry run, and counts the gaps whose target exists |
| `Backlinks.EditPage` | src/commands/backlinks.ts:152-180 | the inner loop is the fold of single insertions over the page's gaps |
| `Backlinks.GroupByTarget` | src/commands/backlinks.ts:140-146 | the map holds each target's gaps in list order |
| `Backlinks.FixAllAt` | src/commands/backlinks.ts:148-185 | what the sequential fix does to a page depends only on that page's gaps, in order |
| `Backlinks.FixAllInOrder` | src/commands/backlinks.ts:154-180 | gaps are applied in list order, each to what the earlier ones left |
| `Backlinks.OthersStay` | src/commands/backlinks.ts:148-150 | a page that is no gap's target keeps its text |
| `Backlinks.InsertKeeps` | src/commands/backlinks.ts:164-178 | neither the mid-text insertion nor the trimmed end can destroy an existing back-link |
| `Backlinks.InsertAdds` | src/commands/backlinks.ts:164-178 | the inserted entry is found again afterwards |
| `Backlinks.InsertAddsLine` | src/commands/backlinks.ts:164-178 | line by line an insertion adds the one-line entry and moves nothing: without a timeline, at the end under a new timeline heading; else before the first section heading between the first timeline heading and any second one, and at the end exactly if there is no such heading |
| `Backlinks.NextSectionExactly` | src/commands/backlinks.ts:164-171 | the search finds an index exactly if it is the first section heading after the start, with no further timeline heading before it |
| `Backlinks.EntryNamesSource` | src/commands/backlinks.ts:156-162 | the entry contains the source's file name, which is what the finder looks for |
| `Backlinks.EntryLinksBack` | src/commands/backlinks.ts:156-162 | the entry is one dated line with the source's title, and its relative link, followed from the target's directory, leads to the source |
| `Backlinks.FixAllKeeps` | src/commands/backlinks.ts:148-185 | no fix ever removes a link |
| `Backlinks.FixAllCloses` | src/commands/backlinks.ts:148-185 | every gap whose target exists is closed |
| `Backlinks.GapIsLacking` | src/commands/backlinks.ts:113-128 | a reported gap joins two existing pages and the link is missing |
| `Backlinks.CleanExactly` | src/commands/backlinks.ts:100-130 | the scan reports nothing exactly if every page is linked back from every page its references find |
| `Backlinks.RoundShrinks` | src/commands/backlinks.ts:99-187 | one find-then-fix round closes all reported gaps, and the set of unlinked pairs strictly shrinks if any was reported |
| `Backlinks.LinksOnlyGrow` | src/commands/backlinks.ts:99-187 | over any number of rounds the unlinked pairs only shrink |
| `Backlinks.GapsNeverReturn` | src/commands/backlinks.ts:99-187 | a gap reported in one round is not reported in any later one, although inserted entries may create references |
| `Backlinks.Converges` | src/commands/backlinks.ts:99-187 | where entity pages that win their slug are well named, and for any reference extractor, within as many rounds as there are unlinked pairs a scan is clean and every page is linked back from every page its references find; from then on nothing changes |
| `Backlinks.ConvergesExactly` | src/commands/backlinks.ts:92-187 | on a walk of page names, rounds reach a clean scan for every extractor and every content exactly if each entity page that wins its slug is well named |
| `Backlinks.WinsExactly` | src/commands/backlinks.ts:92-97 | a page wins its slug exactly if it has a place in the walk after which no page has that slug |
| `Backlinks.FoundByOwnPath` | src/commands/backlinks.ts:92-118 | a link to a page's own path finds it exactly if it is well named and wins its slug |
| `Backlinks.OwnLinkFindsNothing` | src/commands/backlinks.ts:92-118 | a concrete path with an inner `.md`: a link to it finds no page |
| `Backlinks.MisnamedTargetsAreSkipped` | src/commands/backlinks.ts:148-150 | gaps whose target file does not exist change nothing |
| `Backlinks.MisnamedPageNeverCloses` | src/commands/backlinks.ts:95-127 | for every entity page that wins its slug without being well named there is an extractor and a content with which every round, for ever, reports a gap |
| `Backlinks.StemWithMdIsMisnamed` | src/commands/backlinks.ts:95 | a concrete path with an inner `.md` is such a target |
| `AgentLogs.ReadAudit` | src/core/minions/handlers/subagent-audit.ts:117-131 | the audit reader keeps the events at or above the mark, sorted by time |
| `AgentLogs.DumpSince` | src/commands/agent-logs.ts:65-108 | prints exactly the events strictly above the mark, time-ordered and stable, and returns the largest timestamp seen; the transcript is shown only without a mark, with messages, on a terminal job |
| `AgentLogs.ListingMeans` | src/commands/agent-logs.ts:75-87 | a listing holds exactly the events of either log above the mark, in time order, and at each instant the audit log's first |
| `AgentLogs.RunAgentLogs` | src/commands/agent-logs.ts:33-57 | the loop prints the polls' listings one after the other, stops at the first poll that finds the job over, and without --follow makes one |
| `AgentLogs.OrderIsUnique` | src/commands/agent-logs.ts:87 | a time-ordered listing is determined by its events at each instant |
| `AgentLogs.OutputInOrder` | src/commands/agent-logs.ts:41-57 | the output is nondecreasing in time across all polls, above the start and not above the mark, whatever the polls return |
| `AgentLogs.PrintedAtMostOnce` | src/commands/agent-logs.ts:41-57 | on growing logs the output as a multiset is contained in the last log: nothing is printed twice |
| `AgentLogs.LateIsMissed` | src/commands/agent-logs.ts:75-83 | an event that arrives at or below the mark is lost for good |
| `AgentLogs.FollowAgreesWithDump` | src/commands/agent-logs.ts:41-107 | following equals one dump of the final log exactly if no event of interest arrived at or below the mark |
| `AgentLogs.TailAtMostOnce` | src/commands/agent-logs.ts:95-105 | the transcript is rendered at most once in a run, and never when a start was given |
| `AgentLogs.TailExactly` | src/commands/agent-logs.ts:95-105 | a poll renders the transcript exactly if no start was given, no earlier poll printed anything, it finds messages and the job is over |
| `AutopilotLease.LockFile.Acquire` | src/commands/autopilot.ts:121-135 | a start succeeds exactly without a file or with one at least 600 s old, and then owns it |
| `AutopilotLease.LockFile.Handle` | src/commands/autopilot.ts:121-135 | each event does to the file and the living instances what the timed model's step says |
| `AutopilotLease.LockFile.Replay` | src/commands/autopilot.ts:121-135 | a whole run that acquires, touches and removes the file leaves the file and the living instances of the timed model, which the results below are about |
| `AutopilotLease.EventsExactly` | src/commands/autopilot.ts:121-135 | what a start, a cycle, a shutdown and a crash each do to the file and to the instances |
| `AutopilotLease.RestartExactly` | src/commands/autopilot.ts:121-135 | after an orderly shutdown the next start succeeds at once, after a crash only when the lease has run out |
| `AutopilotLease.ExclusiveExactly` | src/commands/autopilot.ts:121-135 | over any timed run of starts, cycles, shutdowns and crashes, no two instances are ever alive exactly if no start meets a lease that expired under a living instance |
| `AutopilotLease.LeaseExcludes` | src/commands/autopilot.ts:263-265 | if every cycle plus its wait stays under 600 s, no second instance ever starts |
| `AutopilotLease.TakeoverExactly` | src/commands/autopilot.ts:121-135 | a living instance can be taken over exactly if its next cycle is 600 s or more after its last touch |
| `AutopilotLease.IntervalExactly` | src/commands/autopilot.ts:455-459 | twice the base interval from a score of 90 on, half of it below 70 but at least a minute, the base interval otherwise |
| `AutopilotLease.IntervalGrowsWithScore` | src/commands/autopilot.ts:455-459 | a healthier brain is never looked at more often, exactly if the base interval is a minute or more |
| `AutopilotLease.SafeBase` | src/commands/autopilot.ts:453-459 | which base intervals keep the lease at every score, for a given cycle length |
| `AutopilotLease.DefaultIntervalLosesLease` | src/commands/autopilot.ts:453-459 | with the default interval and a score of 90 a takeover is always possible |
| `AutopilotLoop.DispatchIsExclusive` | src/commands/autopilot.ts:356-362 | the guards of sleeping and of the full cycle exclude each other, so the order of the branches does not matter |
| `AutopilotLoop.TargetedExactly` | src/commands/autopilot.ts:352-411 | over whole runs, a cycle that reads health and plan dispatches targeted steps exactly if there are at most 3, under 300 s in total, at score 70 or more, unless the brain is at 95 with nothing to do; it dispatches that plan |
| `AutopilotLoop.ActionExactly` | src/commands/autopilot.ts:352-451 | which action a cycle takes, in terms of the score, the plan, the time since the last full cycle and whether the submission came back |
| `AutopilotLoop.RemembersLastFull` | src/commands/autopilot.ts:379 | the time that is compared is that of the last full cycle dispatched |
| `AutopilotLoop.EstTotalAdds` | src/commands/autopilot.ts:350 | the estimates of a plan are added up |
| `AutopilotLoop.Autopilot.ProbeWorker` | src/commands/autopilot.ts:279-312 | one probe: counts an idle reading, warns on the third in a row, resets on a live worker, ignores a failed query |
| `AutopilotLoop.Autopilot.Dispatch` | src/commands/autopilot.ts:330-451 | one cycle's dispatch: which action, the new full-cycle mark, and whether the cycle counts as failed |
| `AutopilotLoop.Autopilot.Cycle` | src/commands/autopilot.ts:259-479 | one turn of the loop changes counters, marks and the record as the step function says |
| `AutopilotLoop.Autopilot.Loop` | src/commands/autopilot.ts:259-484 | the loop stops by the cap exactly at the first cycle that completes five failures in a row |
| `AutopilotLoop.FailedExactly` | src/commands/autopilot.ts:416-449 | a cycle counts as failed exactly if its inline run failed, its health could not be read or the submission of a full cycle threw |
| `AutopilotLoop.InlineCap` | src/commands/autopilot.ts:470-479 | inline, the cap fires exactly after five failed runs in a row |
| `AutopilotLoop.ErrorsAreTrailing` | src/commands/autopilot.ts:470-479 | the error counter is the number of failed cycles at the end of the run |
| `AutopilotLoop.HealthyFullCyclesAreSpaced` | src/commands/autopilot.ts:352-379 | a full cycle on a healthy brain with an empty plan comes at least 60 minutes after every earlier full cycle |
| `AutopilotLoop.WarningsCountStreaks` | src/commands/autopilot.ts:279-312 | the warnings equal the idle streaks that reach three readings; failed probes neither count nor break a streak |
| `AutopilotLoop.NoProbeNoWarning` | src/commands/autopilot.ts:279 | without --no-worker or without queue dispatch nothing is warned of |
| `AutopilotInstall.RemoveMarked` | src/commands/autopilot.ts:825-839 | the line loop drops every marker line together with the line after it |
| `AutopilotInstall.InjectAppends` | src/commands/autopilot.ts:733-743 | without the marker the marker line and the start call are appended to the trimmed file, with it nothing is |
| `AutopilotInstall.UninstallUndoesInject` | src/commands/autopilot.ts:729-748 | removing after injecting gives the file with its end trimmed to one line break, exactly if it had no marker before |
| `AutopilotInstall.InjectIsIdempotent` | src/commands/autopilot.ts:733-736 | injecting twice is injecting once |
| `AutopilotInstall.RemovedIsClean` | src/commands/autopilot.ts:821-848 | after removal the file holds no marker |
| `AutopilotInstall.RemoveIsIdempotent` | src/commands/autopilot.ts:821-848 | removing twice is removing once |
| `AutopilotInstall.CronLineIsOwned` | src/commands/autopilot.ts:753-757 | the installed crontab line is recognised again for every home directory, quotes escaped |
| `AutopilotInstall.QuotedReadsBack` | src/commands/autopilot.ts:755-756 | a quoted path, whatever it holds, is read back by the shell as that path |
| `AutopilotInstall.CronLineRuns` | src/commands/autopilot.ts:755-756 | the crontab line runs the wrapper in the home directory every five minutes |
| `AutopilotInstall.ForeignExactly` | src/commands/autopilot.ts:855-857 | uninstalling keeps exactly the lines with neither name, in their order |
| `AutopilotInstall.UninstallUndoesCron` | src/commands/autopilot.ts:850-865 | uninstalling the crontab entry restores the crontab up to its end, exactly if no line looked like the entry before |
| `AutopilotInstall.InstallCronIsIdempotent` | src/commands/autopilot.ts:758-764 | installing the crontab entry twice is installing it once |
| `Remediate.Submit` | src/commands/doctor.ts:3899-3931 | the entries and the aborted set after one submission, for each way it can end; a wait that throws leaves two entries |
| `Remediate.RunRemediate` | src/commands/doctor.ts:3885-3940 | the loop works until no step is left or the cap is reached |
| `Remediate.RunKeeps` | src/commands/doctor.ts:3885-3940 | against any planner: the cap holds, aborted ids are exactly those with an entry not completed, and there are at most two entries a step |
| `Remediate.CountIsTurns` | src/commands/doctor.ts:3885-3889 | every turn counts one job, so a capped run takes at most that many turns |
| `Remediate.WorksOnFreshPlan` | src/commands/doctor.ts:3885-3940 | a turn works on the next step of the first plan as long as every step so far was skipped, and otherwise on the next step of the plan computed after the last one handed to the queue |
| `Remediate.EndsExactly` | src/commands/doctor.ts:3886-3937 | the run ends exactly at the cap, at the end of the list worked on, or after a step handed to the queue that was the last of its list |
| `Remediate.EnqueuedExactly` | src/commands/doctor.ts:3891-3931 | a step is handed to the queue exactly if no dependency has an entry that did not complete; otherwise it is recorded as skipped; the entries for each way a submission can end |
| `Remediate.ErrorStatusExactly` | src/commands/doctor.ts:3926-3929 | an error is recorded with the first hundred characters of its message |
| `Remediate.AbortedStays` | src/commands/doctor.ts:3873-3940 | the aborted set only grows, whatever is planned later |
| `Remediate.FailureCascades` | src/commands/doctor.ts:3891-3897 | along any chain of processed dependents, one failure makes every later one skipped and aborted |
| `Remediate.FailureIsReported` | src/commands/doctor.ts:3960-3961 | the run exits with failure exactly if some step was aborted |
| `EvalResume.LoadResumeSet` | src/commands/eval-longmemeval.ts:156-179 | throws exactly on a line holding JSON null; otherwise the set holds exactly the ids with a row that counts as done, blank, corrupt and id-less lines passed over |
| `EvalResume.ResultFile.Run` | src/commands/eval-longmemeval.ts:328-391 | one run, cut anywhere: a resumed one appends the open questions' rows, a fresh one truncates first, and neither touches the file with nothing to ask; a file that cannot be read is left alone |
| `EvalResume.RunWrites` | src/commands/eval-longmemeval.ts:377-389 | a run leaves what it kept and then a row for each question asked, in order, with its answer or with the message of its exception |
| `EvalResume.TodoInOrder` | src/commands/eval-longmemeval.ts:328-333 | a fresh run asks all its questions, and a resumed one keeps their order |
| `EvalResume.RunKeeps` | src/commands/eval-longmemeval.ts:120-143 | every run keeps done rows last for their question; a resumed one only appends |
| `EvalResume.NeverAnsweredTwice` | src/commands/eval-longmemeval.ts:328-391 | over any runs no question has two done rows, or any row after a done one |
| `EvalResume.LastRunCompletes` | src/commands/eval-longmemeval.ts:377-391 | when the last run is not cut and can read its file, every question it was given has a row |
| `EvalResume.AsksExactlyTheOpen` | src/commands/eval-longmemeval.ts:328-333 | a resumed run asks exactly its questions without a done row, and nothing if it cannot read the file |
| `EvalResume.NullStopsResuming` | src/commands/eval-longmemeval.ts:165-175 | runs never write a line that cannot be read, and once there is one resumed runs leave the file as it is |
| `EvalResume.RetriedExactly` | src/commands/eval-longmemeval.ts:174-176 | an asked question is asked again exactly if it failed with a non-empty message |
| `EvalResume.DoneIsSettled` | src/commands/eval-longmemeval.ts:156-179 | once done, a question never gets another row from resumed runs |
| `Glob.Compile` | scripts/select-e2e.ts:102-120 | the index loop emits the text of the glob's token list |
| `Glob.EmitReadsBack` | scripts/select-e2e.ts:102-121 | the emitted text, read as a regular expression, is exactly the intended pieces: nothing else in it is taken for syntax |
| `Glob.SplitMatches` | scripts/select-e2e.ts:121 | a path that splits as the tokens ask is matched |
| `Glob.MatchSplits` | scripts/select-e2e.ts:121 | a matched path splits into one fitting part per token |
| `Glob.MatchGlob` | scripts/select-e2e.ts:96-122 | throws exactly on `?`, `[` or `{`; otherwise matches exactly if the path splits into literals, slash-free parts for `*` and line-terminator-free parts for `**` |
| `Glob.StarStarExactly` | scripts/select-e2e.ts:107-109 | after a start without stars, two stars stand for any part within one line, slashes included, and the rest of the glob for the rest of the path |
| `Glob.StarExactly` | scripts/select-e2e.ts:110-112 | one star stands for any part without a slash |
| `Glob.TrailingStars` | scripts/select-e2e.ts:107-112 | at the end of a glob two stars match a whole tree and one star only what lies directly in it |
| `Glob.PlainGlobMatchesItself` | scripts/select-e2e.ts:113-119 | a glob without wildcards matches only itself, whatever special characters it holds |
| `SelectE2E.Classify` | scripts/select-e2e.ts:143-149 | empty exactly on no change, doc-only exactly if every path is on the doc list |
| `SelectE2E.KindsExactly` | scripts/select-e2e.ts:41-92 | which paths are documents, tests and escape paths |
| `SelectE2E.DocsAreNeither` | scripts/select-e2e.ts:52-92 | a document is never an escape path or a test |
| `SelectE2E.SelectTests` | scripts/select-e2e.ts:151-187 | throws exactly when an unreadable glob is consulted; otherwise sorted, all tests exactly on no change, an escape path or nothing selected, none on doc-only, and else exactly the tests some changed file asks for, once each |
| `SelectE2E.SelectionExactly` | scripts/select-e2e.ts:156-183 | who asks for a test, when everything runs and when a glob cannot be read, in terms of the changed files and the map |
| `SelectE2E.AtMostExactly` | scripts/select-e2e.ts:154 | the sort order compares at the first difference, and a prefix comes first |
| `SelectE2E.UncoveredFileIsSilent` | scripts/select-e2e.ts:181-183 | adding a file nothing covers asks for no further test; everything runs exactly if an escape path was touched or nothing else was selected; it throws exactly if the map holds an unreadable glob and no escape path was touched |
| `SelectE2E.UncoveredBesideTest` | scripts/select-e2e.ts:181-183 | a changed test and an unmapped source file: only that test runs |
| `SelectE2E.MoreChangesMoreTests` | scripts/select-e2e.ts:163-177 | touching more files never drops a selected test unless everything runs |
| `CliArgs.ParseOpArgs` | src/cli.ts:458-487 | the loop, with its look-ahead for values, computes the parse of the argument list |
| `CliArgs.ParseItem` | src/cli.ts:463-486 | one printed item is parsed as that item whatever follows, even when its value looks like a flag |
| `CliArgs.ParseInvertsPrint` | src/cli.ts:458-487 | parsing a printed item list gives what the items stand for |
| `CliArgs.SurplusIsSkipped` | src/cli.ts:480-486 | a word too many is passed over: what stands before and after it is parsed as if it were not there |
| `CliArgs.DanglingFlagIsDropped` | src/cli.ts:475-478 | a flag that needs a value and stands last is dropped |
| `CliArgs.AnyOrderRoundTrips` | src/cli.ts:458-487 | any way of saying some parameters, flags in any order, parses to exactly them |
| `CliArgs.FlagRoundTripsExactly` | src/cli.ts:465-478 | a flag survives exactly if its name has no dash and is not the --no- form of a declared boolean, and its number, if it has one, reads back from its text |
| `CliArgs.NoFlagIsCaptured` | src/cli.ts:466-472 | a boolean `x` and a text `no_x`: the flag that gives `no_x` a value clears `x` and sets nothing else |
| `CliArgs.PositionalRoundTripsExactly` | src/cli.ts:464-485 | a positional value survives exactly if it does not start with two dashes and its number, if it is one, reads back from its text |
| `CliArgs.IntegersRoundTrip` | src/cli.ts:463-485 | with decimal integers all that is met: every integer survives as a flag's value and as a positional one |
| `Jaccard.Dedup` | src/commands/eval-replay.ts:278-286 | keeps each slug's first occurrence, in order |
| `Jaccard.FirstsInOrder` | src/commands/eval-replay.ts:278-286 | the distinct slugs come in the order of their first occurrences |
| `Jaccard.JaccardSlugs` | src/commands/eval-replay.ts:222-230 | the counting loop computes the ratio of intersection to union, 1 for two empty lists, whatever the order and duplicates |
| `Jaccard.JaccardAtK` | src/commands/eval-whoknows.ts:187-195 | the same score on the first k entries |
| `Jaccard.TopKHit` | src/commands/eval-whoknows.ts:197-203 | true exactly if one of the first k actual slugs is expected |
| `Jaccard.DedupDoesNotMatter` | src/commands/eval-replay.ts:278-292 | scoring the deduplicated results equals scoring them as returned |
| `Jaccard.SimilarityFacts` | src/commands/eval-replay.ts:222-230 | in [0, 1], symmetric, 1 exactly on equal sets, 0 exactly on disjoint ones not both empty |
| `Jaccard.Triangle` | src/commands/eval-replay.ts:222-230 | one minus the score satisfies the triangle inequality |
| `Jaccard.HitIsPositiveScore` | src/commands/eval-whoknows.ts:187-203 | with at most k expected slugs, a hit is the same as a positive score |
| `Jaccard.MeanMoves` | src/commands/eval-replay.ts:314-318 | one more row that counts moves the mean by its share, one that is left out does not |
| `Jaccard.PerfectMeanIsStability` | src/commands/eval-replay.ts:314-318 | the mean lies in [0, 1] and is 1 exactly if some row counted and every row that counted found the same slugs |
| `Changelog.GtIsLexicographic` | src/commands/check-update.ts:74-82 | being newer is decided by the first component that differs |
| `Changelog.GtIsStrictTotal` | src/commands/check-update.ts:74-82 | being newer is a strict total order on version triples |
| `Changelog.ParsesExactly` | src/commands/check-update.ts:16-23 | a version parses exactly if its first three dotted parts are numbers, which are its components in order; one leading v is passed over |
| `Changelog.BumpIsNewerBeyondPatch` | src/commands/check-update.ts:25-32 | a minor or major bump is a newer version that stays newer whatever the patch numbers |
| `Changelog.HeadingExactly` | src/commands/check-update.ts:92 | the heading pattern accepts exactly `## [`, three or four dotted digit strings and `]`, and captures the version |
| `Changelog.HeadingParses` | src/commands/check-update.ts:94-98 | every accepted heading parses, so the branch for unparsable headings is dead |
| `Changelog.FourthPartIgnored` | src/commands/check-update.ts:16-23 | a version with a fourth component compares like the one without |
| `Changelog.Extract` | src/commands/check-update.ts:84-118 | the scan returns, trimmed, the lines from the first newer heading up to the next heading that is not newer, and nothing for an unparsable version; they are the lines between `from` and `to` exactly if the changelog keeps that bound |
| `Changelog.StretchIsNewer` | src/commands/check-update.ts:91-117 | every line returned belongs to a newer section, and no line above does |
| `Changelog.AllNewerExactly` | src/commands/check-update.ts:91-117 | all lines of all newer sections are returned exactly if no newer heading follows the stretch |
| `Changelog.DescendingGetsAllNewer` | src/commands/check-update.ts:91-117 | on a descending changelog that is always so |
| `Changelog.BetweenExactly` | src/commands/check-update.ts:91-117 | the result is the lines of the sections newer than `from` and not newer than `to` exactly if no captured heading is newer than `to` and no heading below the stretch lies between the two |
| `Changelog.UpperBoundExactly` | src/commands/check-update.ts:91-117 | on a descending changelog that is so exactly if the first captured heading is not newer than `to` |
| `Changelog.UnreleasedIsReturned` | src/commands/check-update.ts:57-69 | with an unreleased section on top of the latest release the section above `to` is returned too |
| `Changelog.UnreleasedExample` | src/commands/check-update.ts:57-69 | the same with concrete versions and decimal numbers |
| `Text.TrimExactly` | src/commands/check-update.ts:117 | trimming takes white space off both ends and nothing else |

## Left out

- Upserts: the delete and the insert of one page are one atomic step, a write that fails changes nothing, and `getChunks` and `upsertChunks` of different pages do not interfere. The columns a run only writes (`model`, `embedded_at`) are left out.
- `EmbedStale.EmbedAllStale`: for pages with different composite keys, as the check of source ids in src/core/sources-ops.ts makes them.
- Embedding: a call returns one vector for each text, a function of that text; the budget timer and failures are nondeterministic, and an exception from the stale listing itself is not modelled.
- `EmbedPool.RunPool`: works on the row table as a value that the caller writes back when the pool is done, not on the class's field step by step.
- `--all` embedding and single-page embedding: the pool of `embedAll` is modelled at the level of claims only; `embedPage`, which decides by `embedded_at`, and chunking of new pages are not modelled.
- `EmbedBackoff.DelayWithinJitter`: for hints that are numbers; a hint in seconds that consists of dots only parses to NaN, and so does the delay.
- Retry hints: the text patterns that find a delay or the words "rate limit" in a message are inputs of the retry model.
- Page counters: `pages_processed` counts finished groups; a page straddling two batches counts twice, in the code and in the model. The model says nothing more about it, and progress callbacks are left out.
- Ledger: versions are triples of numbers rather than strings, entries keep only version and status, and unreadable ledger lines are absent. The reset of schema drift is not modelled.
- Back-links: reference extraction, which yields people and companies only, and title extraction are arbitrary functions of the page text; the directory walk, unreadable files and the date are given; file names hold no line break.
- Logs: timestamps are numbers in the order of their text; the weekly rotation of audit files and lines that do not parse are left out.
- Autopilot: the lock check and write are one step, file errors are absent, the base interval is a natural number; reconnects, the worker child, submissions of single targeted steps that throw (they are caught) and the drain on shutdown are left out. launchd, systemd and script generation are not modelled.
- `AutopilotInstall.CronLineIsOwned`: the home directory is joined without path normalisation.
- `AutopilotInstall.UninstallUndoesInject`, `AutopilotInstall.UninstallUndoesCron`: for script paths and home directories without line breaks.
- Remediation: the checks before the loop (reachable target, cost ceiling, confirmation, dry run) and the final report are left out; job ids are numbers.
- Crash-resume: the text of a line is reduced to what its parse gives; a crash falls between rows; a half-written line that a later append joins is not modelled, nor is resuming into a different file, nor the recall counters.
- Test selection: reading the git diff and listing test files are inputs. Regular expressions are read in the fragment the compiler emits, by code units.
- `CliArgs.FlagRoundTripsExactly`: parameters are a map, so a parameter called `__proto__`, which a plain object does not keep, is not told apart.
- Argument parsing: the standard-input fallback is left out; numbers are any type with any `Number` and any text for a number.
- Scores: ratios are exact; latencies, gate thresholds and reports are left out.
- Changelog: `Number` is any function that reads digit strings; precision of very long digit strings is left out, as are fetching the release and the report.
- The doctor's individual health checks, coverage percentages and score deductions are single queries with thresholds and are not modelled.
- Printing, help texts, exit codes beyond remediation, JSON encoding, signals and the environment.
