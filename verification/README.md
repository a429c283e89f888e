# Verified models of sharding, dispatch, repair, migration and resume logic

This project models the self-contained algorithms and small protocols of a knowledge-brain CLI and proves what
they promise. `dafny verify dfyconfig.toml` checks all of it.

- **Test sharding** (`Lpt`, `Sharding`, `ShardingTheorems`): the greedy weight-aware partition of test files over CI
  shards, with its median fallback, its deterministic order and its in-place placement loop. Proved about that very
  loop: Graham's bound `4/3 - 1/(3n)` against every other way of sharing out the files, the balance of any two shards,
  conservation, the weight used for each file, and that separate processes each printing their own shard run every file exactly once.
- **Per-source dispatch** (`Fanout`, `GateTheorems`, `CooldownTheorems`, `FairnessTheorems`, `WaitingTheorems`): freshness gate,
  oldest-first cap, and the exponential failure cooldown counted over a sliding window. Proved: when a source waits and
  for how long (to the tick without failures, by a bound with them), that the dispatch gate and the later claim guard
  agree although the window moves in between, and how rarely a source that always fails is dispatched.
- **Back-link repair** (`Text`, `Backlinks`, `BacklinksTheorems`, `LinkTheorems`): finding missing back-links and rewriting the target
  pages. Proved for any reference extractor: which gaps are found, that the link written for each leads from its target
  page to its source page, no way of inserting an entry destroys a link, a pass closes every gap whose
  target file exists, and repeating find-and-fix reaches a state without gaps exactly when each person or company page
  found under a slug that leads the repair elsewhere already has its links.
- **Migration ledger** (`Migrations`, `MigrationTheorems`): an append-only ledger, the status scan with its attempt
  cap, the planner and the runner. Proved for arbitrary orchestrators and arbitrary ledger writes: without a new retry
  marker a version is attempted at most three times, and once more for each attempt whose record is lost; runs with work
  number at most three per version, and one for each run that loses its first write, so they end when first writes land; and the status after any run, from
  what the orchestrators did.
- **Test selection** (`Glob`, `Selector`): the compiler from globs to regular-expression text, whose output is parsed
  back by the grammar of section 22.2.1 and Annex B.1.2 of ECMA-262 and shown to match exactly the glob's language;
  and the fail-closed selector around it.
- **Printers and parsers** (`ShellQuote`, `OpArgs`): the shell quoting of connect commands, read back by sections
  2.2.1, 2.2.2 and 2.3 of the POSIX.1-2017 Shell Command Language; and the operation argument parser, read back from
  the flag spelling its help prints.
- **Incremental protocols** (`AgentLogs`, `Enrich`, `EnrichMachine`, `EnrichTheorems`, `MineWeights`): following a log
  by a watermark, resuming an enrich run from its checkpoint after crashes, and mining durations from interleaved CI
  logs, each against the simple form it stands for.
- **Shared** (`Common`, `Order`, `Iteration`): options and results, stable sorting, repetition.

Code that changes state step by step is modelled by methods with loops, arrays and classes; each method's contract
ties its result or new state to a function, and the theorems are about those functions.

## Where code and documentation disagree

The model follows the code.

- The selector's header says an unmapped source change emits every test. Without an escape hatch that holds exactly for
  change sets that as a whole ask for no test, or for all of them; in a mixed set an unmapped file adds nothing
  (`Selector.EmitsAllExactly`, `Selector.MixedChangeSetNarrows`).
- A `**` in a glob is documented as any segments, but is compiled to `.*`, which stops at line terminators
  (`Glob.CompiledMeaning`, `Glob.MeaningPreservedExactly`).
- The partition promises every file in exactly one shard. A file stands once, in exactly one shard, if and only if it is
  listed once (`ShardingTheorems.OneShardIffListedOnce`); one listed twice can land on two shards
  (`ShardingTheorems.RepeatedFileOnTwoShards`). The multiset of files is always kept.
- The migration runner says it runs in registry order. It runs all partial versions before all pending ones, which is
  registry order exactly when no pending version in scope stands before a partial one
  (`MigrationTheorems.RegistryOrderExactly`, `MigrationTheorems.PartialOvertakesPending`).
- A page's slug drops the first `.md` of its path, not the extension, and the repair writes to the slug with `.md` put
  back. Repetition closes all gaps, for every canonical extractor, exactly when each page among the people or companies
  found under such a lossy slug already names every page (`BacklinksTheorems.RepairConvergesExactly`,
  `BacklinksTheorems.TwinsNeverSettle`).
- The back-link test looks for the source's file name anywhere in the target. A link from `people/joann.md` therefore hides
  that `people/ann.md` has none. The test tells links apart exactly when no page's path contains another page's file name
  (`BacklinksTheorems.TestIsRightExactly`, `BacklinksTheorems.JoannHidesAnn`).
- Back-link entries are said to go into the timeline section. On a page with two timeline headings and nothing between them
  they go to the end of the page, whatever section stands there (`LinkTheorems.EntryInTimelineExactly`,
  `LinkTheorems.TwoTimelinesMisplace`).
- `--force-retry` promises that the next run treats a version as fresh. For a version completed before, one attempt that
  does not finish makes it count as applied again: after a recorded attempt a version is applied exactly when it finished
  or had a complete entry (`MigrationTheorems.StatusAfterRun`, `MigrationTheorems.FailedRetryIsApplied`).
- An enrich dry run promises not to write. With `--force` it clears the checkpoint
  (`EnrichTheorems.DryRunKeepsStoreExactly`).
- A declared key `no_x` beside a boolean `x`, or one with a dash in it, cannot be set by the flag the help prints for it,
  whatever its type; every other key can (`OpArgs.OnRoundTripExactly`, `OpArgs.GivenRoundTripExactly`,
  `OpArgs.NoCacheIsMisread`).

## Model

| member | source | states |
|---|---|---|
| Sharding.LeastLoaded | scripts/sharding.ts:172-175 | the inner loop finds the least total, the lowest index among ties |
| Sharding.Place | scripts/sharding.ts:171-178 | one turn of the loop changes exactly one shard and one total, keeping both equal to the greedy assignment so far |
| Sharding.PlaceAll | scripts/sharding.ts:169-179 | the whole placement loop, in place over the shards, yields the greedy assignment of the sorted tuples |
| Sharding.Partition | scripts/sharding.ts:124-180 | the partition with its fallback, cold-start guard and range errors, tied to the function the theorems are about |
| Lpt.HeavyStep | scripts/sharding.ts:9-11 | a job heavier than a third of `t` always fits within `t`, if any assignment keeps all shards within `t` |
| Lpt.GrahamBound | scripts/sharding.ts:9-11 | against every assignment within `t`, no greedy shard exceeds `(4/3 - 1/(3n)) * t` |
| Lpt.Balanced | scripts/sharding.ts:170-179 | after every placement, a shard without its last weight is no heavier than any other shard |
| Lpt.TakesTurns | scripts/sharding.ts:149-157 | equal positive weights are placed round robin, and the loads show whose turn it is |
| ShardingTheorems.PartitionPermutation | scripts/sharding.ts:113-116 | any reordering of the same files gives identical shards |
| ShardingTheorems.SortedTuplesSpec | scripts/sharding.ts:159-167 | the tuples are the files with their effective weights, heaviest first, ties by path |
| ShardingTheorems.PartitionConserves | scripts/sharding.ts:118-122 | there are exactly `n` shards, together holding exactly the given multiset of files |
| ShardingTheorems.OneShardIffListedOnce | scripts/sharding.ts:118-122 | a file stands in exactly one shard, once, if and only if it is listed once |
| ShardingTheorems.RepeatedFileOnTwoShards | scripts/sharding.ts:118-122 | any file listed twice, with no weights and two shards, lands on both |
| ShardingTheorems.MedianBounds | scripts/sharding.ts:90-97 | the lower half of the sorted values is at most the median and the upper half at least |
| ShardingTheorems.MedianSplits | scripts/sharding.ts:86-97 | at least half of the values are at most the median and at least half are at least it |
| ShardingTheorems.MedianExactly | scripts/sharding.ts:90-97 | the median is the middle one of the values put in ascending order, or half way between the two middle ones, and nothing else is |
| ShardingTheorems.WeightOfExactly | scripts/sharding.ts:134-163 | a file with a mined weight gets that weight; any other gets the given fallback, or without one the median of the mined weights, with 1 in place of 0 |
| ShardingTheorems.RangeErrorsExactly | scripts/sharding.ts:130-144 | a shard count below 1 is refused first; a negative fallback is refused only when there are files |
| Order.StringLeExactly | scripts/sharding.ts:167 | the order of paths: a prefix first, otherwise by the first character that differs |
| ShardingTheorems.PartitionWithinGraham | scripts/sharding.ts:9-11 | if the files can be shared out in any way with no shard above `t`, no shard of the partition is above `(4/3 - 1/(3n)) * t`, so none is above `4/3 * t` |
| ShardingTheorems.PartitionSpread | scripts/sharding.ts:169-179 | no two shards differ by more than the heaviest file |
| ShardingTheorems.PartitionRoundRobin | scripts/sharding.ts:149-157 | files of one positive weight are dealt out round robin in path order |
| ShardingTheorems.ColdStartRoundRobin | scripts/sharding.ts:149-157 | with no weights mined, the guard makes the partition round robin |
| ShardingTheorems.ZeroFallbackCollapses | scripts/sharding.ts:149-153 | without the guard, an explicit fallback of 0 puts every file on the first shard |
| ShardingTheorems.EveryFileRunsOnce | scripts/sharding.ts:226-250 | processes that each read the same files in an order of their own and print their own shard together print every file exactly as often as it was given |
| Fanout.SelectSourcesForDispatch | src/commands/autopilot-fanout.ts:326-357 | the loop and sort yield the four lists that the selection function defines |
| FairnessTheorems.SelectPartitions | src/commands/autopilot-fanout.ts:326-357 | every source lands in exactly one list, for the stated reason; dispatch and cap together are in age order, and something is capped only when dispatch is full |
| FairnessTheorems.WaitingSortsFirst | src/commands/autopilot-fanout.ts:347-353 | a source already waiting sorts strictly before any source that turns stale later |
| FairnessTheorems.QueueMovesUp | src/commands/autopilot-fanout.ts:337-356 | what one tick does not dispatch heads the next tick's queue, in the same order, whatever turns stale meanwhile |
| FairnessTheorems.DispatchedByRank | src/commands/autopilot-fanout.ts:337-356 | a stale source of rank `r` is dispatched at tick `r / fanoutMax`, counting from 0, and at no earlier tick |
| FairnessTheorems.NobodyWaitsLonger | src/commands/autopilot-fanout.ts:337-356 | every stale source is dispatched within `ceil(N / fanoutMax)` ticks |
| GateTheorems.SelectByField | src/commands/autopilot-fanout.ts:166-228 | which list a source is in, field by field: fresh by its full-cycle stamp alone, held by its failures and the success stamp that counts |
| GateTheorems.StampThatCounts | src/commands/autopilot-fanout.ts:194-201 | a per-source success since the last failure frees a source whatever the full-cycle stamp says, an older or unparseable one is not rescued by it, and without one it takes its place |
| GateTheorems.DispatchInOrder | src/commands/autopilot-fanout.ts:347-356 | sources without a full cycle go first, then by its time, then by id, and the first `fanoutMax` are dispatched |
| GateTheorems.CooldownDoubles | src/commands/autopilot-fanout.ts:205-209 | the cooldown is 1, 2, 4, 8 and from the fifth failure on 16 times the base, cut at the cap, and 0 when switched off |
| GateTheorems.WindowCounts | src/commands/autopilot-fanout.ts:259-277 | a failure is counted exactly when it is less than the window old |
| CooldownTheorems.CooldownBounds | src/commands/autopilot-fanout.ts:204-209 | more failures never shorten the cooldown, which stays between `min(base, cap)` and `cap` |
| CooldownTheorems.CooldownExactly | src/commands/autopilot-fanout.ts:217-228 | when a source is in cooldown, stated over its whole history instead of the window |
| CooldownTheorems.WindowIsSound | src/commands/autopilot-fanout.ts:259-277 | in cooldown under the window implies in cooldown under the full history |
| CooldownTheorems.WindowReleasesExactly | src/commands/autopilot-fanout.ts:259-314 | when the window releases a source that the full history would hold |
| CooldownTheorems.WindowForgets | src/commands/autopilot-fanout.ts:259-277 | the converse fails: a concrete history where the window releases a source that the full history would hold |
| CooldownTheorems.HeldAtLeast | src/commands/autopilot-fanout.ts:204-228 | without a later success a source is held for `min(base, cap)` minutes after its last failure |
| CooldownTheorems.NeverHeldPastCap | src/commands/autopilot-fanout.ts:204-228 | a source is never held for `cap` minutes or more after its last failure |
| CooldownTheorems.DispatchClaimAgree | src/commands/autopilot-fanout.ts:293-314 | a source out of cooldown at dispatch stays out at every later claim without a new failure |
| CooldownTheorems.StormBounded | src/commands/autopilot-fanout.ts:339-344 | a source whose every cycle fails is dispatched at most once every `min(base, cap)` minutes |
| CooldownTheorems.LetThroughExactly | src/commands/autopilot-fanout.ts:259-314 | the gate lets a failing source through exactly when the cooldown of the failures still in the window is over |
| CooldownTheorems.GapAtLeast | src/commands/autopilot-fanout.ts:204-228 | the gap before each dispatch is at least the cooldown of the failures still in the window, and at least `min(base, cap)` |
| CooldownTheorems.FailuresSpread | src/commands/autopilot-fanout.ts:204-228 | failures within one window of the cap lie as far apart as all the doubling cooldowns between them together |
| CooldownTheorems.WindowCapacity | src/commands/autopilot-fanout.ts:204-228 | once `n` doubling cooldowns add up to the cap, no source fails `n + 1` times within the cap |
| CooldownTheorems.DefaultsAllowFour | src/commands/autopilot-fanout.ts:45-47 | with the default 10 and 120 minutes no source fails five times within 120 minutes |
| WaitingTheorems.FullTick | src/commands/autopilot-fanout.ts:337-356 | a tick that leaves out a healthy source is full, and all it dispatches is healthy and sorts before that source |
| WaitingTheorems.AccountHolds | src/commands/autopilot-fanout.ts:337-356 | while a healthy source waits, each other source is as it was, renewed, or failed, with its dispatches a shortest cooldown apart |
| WaitingTheorems.WaitBounded | src/commands/autopilot-fanout.ts:337-356 | a healthy source waits through `k` ticks only if `k * fanoutMax * gap <= (N - 1) * gap + failing * elapsed`, with `gap` the shortest cooldown and `failing` the number of sources that failed |
| WaitingTheorems.RunExists | src/commands/autopilot-fanout.ts:337-356 | every start, policy and sequence of ticks and outcomes has a run that follows tick by tick |
| WaitingTheorems.StarvesForever | src/commands/autopilot-fanout.ts:337-356 | without room it waits for ever: one place, one source failing at every tick, ticks the cap apart |
| Backlinks.BrainDir.IndexBySlug | src/commands/backlinks.ts:92-97 | the lookup gives for every slug the page registered last |
| Backlinks.BrainDir.ScanPage | src/commands/backlinks.ts:101-129 | the loop over one page's references finds each of its gaps once per target slug |
| Backlinks.BrainDir.FindBacklinkGaps | src/commands/backlinks.ts:71-133 | the scan yields exactly the gaps of the pages in walk order |
| Backlinks.BrainDir.GroupByTarget | src/commands/backlinks.ts:140-146 | the Map holds each target's gaps in order, each target under one key |
| Backlinks.BrainDir.RewriteText | src/commands/backlinks.ts:154-180 | one target's text after all its entries are inserted one by one |
| Backlinks.BrainDir.FixBacklinkGaps | src/commands/backlinks.ts:136-188 | the batched rewrite equals fixing gap by gap, a dry run writes nothing, and the count is of gaps whose target file exists |
| Backlinks.FixAllByTarget | src/commands/backlinks.ts:140-148 | batching by target changes nothing: each file gets its own gaps in order |
| BacklinksTheorems.EntityRefsExactly | src/commands/backlinks.ts:40-49 | the extractor keeps exactly the references into people and companies, each with its slug stripped |
| BacklinksTheorems.StripComesBack | src/commands/backlinks.ts:43-48 | stripping the directory and putting it back in front gives the slug back, or one with the directory added |
| BacklinksTheorems.InsertKeepsLinks | src/commands/backlinks.ts:164-178 | none of the three ways of inserting an entry removes a contained file name |
| BacklinksTheorems.FixAllKeepsLinks | src/commands/backlinks.ts:136-188 | a pass over any gaps removes no page and no linked file name |
| BacklinksTheorems.FixAllClosesGap | src/commands/backlinks.ts:136-188 | after a pass, the target of every given gap that exists names the source |
| BacklinksTheorems.FoundGapIsReal | src/commands/backlinks.ts:117-128 | among repairable pages, a found gap leads from a page to a page that lacks the source's file name |
| LinkTheorems.LinkLeadsToSource | src/commands/backlinks.ts:154-162 | an entry names the day and the title and holds one link, which leads from the target page to the source page at every depth; only a source path that leaves the brain is not reached |
| LinkTheorems.PassWritesLinks | src/commands/backlinks.ts:136-188 | after a pass every given gap's target page, if it exists, holds a link that leads to the source page |
| LinkTheorems.InsertKeepsText | src/commands/backlinks.ts:164-178 | an inserted entry costs a page nothing but white space at its end; a heading is added exactly when there is none, and what follows the entry starts a section |
| LinkTheorems.EntryInTimelineExactly | src/commands/backlinks.ts:164-178 | the entry stands in a timeline section exactly when the page has no timeline, or a section follows its first one before any second, or the page ends under one |
| LinkTheorems.OneTimelineIsEnough | src/commands/backlinks.ts:164-178 | on a page with one timeline heading the entry always stands under it |
| LinkTheorems.TwoTimelinesMisplace | src/commands/backlinks.ts:165-174 | two timeline headings with nothing between them and then another section: the entry goes under that section |
| LinkTheorems.LastPageWins | src/commands/backlinks.ts:93-97 | a slug stands for the last page that has it |
| LinkTheorems.GapsExactly | src/commands/backlinks.ts:100-129 | which gaps are found, with all four fields: for each page its first reference to each target, when the page found there does not hold the source's file name |
| LinkTheorems.PageGapsInOrder | src/commands/backlinks.ts:113-129 | a page's gaps come in the order of its references |
| LinkTheorems.GapsInOrder | src/commands/backlinks.ts:101-130 | gaps come in the order of the pages |
| LinkTheorems.FixedInOrder | src/commands/backlinks.ts:148-180 | gaps are fixed in the order in which they are given |
| LinkTheorems.OneGapFixed | src/commands/backlinks.ts:148-184 | one gap changes its target page by its entry, and no other page |
| LinkTheorems.FixedCountExactly | src/commands/backlinks.ts:138-187 | the number reported is that of the gaps whose target file exists |
| LinkTheorems.EntityRefsInOrder | src/commands/backlinks.ts:40-49 | the references kept come in the order of the canonical ones |
| BacklinksTheorems.NoGapsExactly | src/commands/backlinks.ts:71-133 | no gap is found if and only if every reference to an existing page has its back-link |
| BacklinksTheorems.ShadowHidesGap | src/commands/backlinks.ts:61-63 | a link to a page whose path contains the source's file name hides that the source has no link |
| BacklinksTheorems.JoannHidesAnn | src/commands/backlinks.ts:61-63 | a concrete pair of pages, one hiding the other |
| BacklinksTheorems.TestIsRightExactly | src/commands/backlinks.ts:61-63 | the substring test tells links apart, whatever the text, if and only if no page's path contains another's file name |
| BacklinksTheorems.NoGapsMeansOwnLinks | src/commands/backlinks.ts:71-133 | then no gap is found if and only if every reference to a page has a link of its own there |
| BacklinksTheorems.PassClosesGaps | src/commands/backlinks.ts:71-188 | a find-and-fix pass over repairable pages makes no pair lacking, keeps them repairable, and leaves strictly fewer pairs lacking when it found gaps |
| BacklinksTheorems.MarkdownNameIsLinkable | src/commands/backlinks.ts:82 | the file name of every page path that ends in `.md` and holds no newline is one the repair cannot lose |
| BacklinksTheorems.RepairConverges | src/commands/backlinks.ts:71-188 | repeated repair of repairable pages reaches a state without gaps within as many passes as there were lacking pairs, for any extractors and dates |
| BacklinksTheorems.RepairConvergesExactly | src/commands/backlinks.ts:71-188 | repetition reaches no gaps for every canonical extractor if and only if every people or company page that a lossy slug leads to already names every page |
| BacklinksTheorems.NeverSettles | src/commands/backlinks.ts:95-127 | a people or company page that a lossy slug leads to and that lacks a link: with an extractor that refers to it, no number of passes leaves no gap |
| BacklinksTheorems.TwinsNeverSettle | src/commands/backlinks.ts:95-127 | a concrete pair of pages, where entries meant for the second are written to the first |
| BacklinksTheorems.RoundTripExactly | src/commands/backlinks.ts:95 | a path comes back from its slug exactly when it holds a `.md` and from the first one on is nothing but `.md`s |
| BacklinksTheorems.MdxPathIsLost | src/commands/backlinks.ts:95 | no path that ends in `.mdx.md` comes back |
| Migrations.IndexCompleted | src/commands/apply-migrations.ts:120-130 | the index holds every version's marks in ledger order |
| Migrations.StatusForVersion | src/commands/apply-migrations.ts:146-167 | the backwards scan computes the status function, an unknown version being pending |
| Migrations.BuildPlan | src/commands/apply-migrations.ts:190-205 | every registered version in scope goes to the list its status or its future version calls for, in registry order |
| Migrations.Ledger.Append | src/core/preferences.ts:143-167 | appends, except a second `complete` in a row for one version |
| Migrations.RunApplyMigrations | src/commands/apply-migrations.ts:421-505 | the runner loop: partials before pendings, one entry per logged attempt, stopping at the first failure or lost write |
| Migrations.ForceOrchestrator | src/commands/apply-migrations.ts:310-328 | appends one retry for each version that the snapshot shows wedged |
| Migrations.ForceRetry | src/commands/apply-migrations.ts:296-305 | appends a retry for a registered version, nothing for an unknown one |
| MigrationTheorems.ScanIsAutomaton | src/commands/apply-migrations.ts:132-167 | the scan agrees with a fold that remembers any complete, any partial, trailing partials and a last retry |
| MigrationTheorems.CompleteUnlessRetry | src/commands/apply-migrations.ts:143-154 | a version with a complete entry is complete exactly when its last entry is not retry |
| MigrationTheorems.RemainingExactly | src/commands/apply-migrations.ts:155-167 | attempts remain exactly for pending and partial versions, never more than three |
| MigrationTheorems.AttemptCosts | src/commands/apply-migrations.ts:155-167 | a recorded attempt lowers what remains, and finishing applies the version |
| MigrationTheorems.OutcomeIsWritten | src/core/preferences.ts:148-159 | for a version the runner attempts, the idempotency guard never swallows the outcome |
| MigrationTheorems.ToRunSpec | src/commands/apply-migrations.ts:421 | exactly the registered versions in scope that are pending or partial are run, each once |
| MigrationTheorems.ToRunOrder | src/commands/apply-migrations.ts:421 | of two versions run, the earlier is partial and the later pending, or both have one status and stand that way in the registry |
| MigrationTheorems.RegistryOrderExactly | src/commands/apply-migrations.ts:421-429 | versions run in registry order if and only if no pending version in scope stands before a partial one |
| MigrationTheorems.PartialOvertakesPending | src/commands/apply-migrations.ts:421-429 | with the second of two versions begun and the first not, the second runs first |
| MigrationTheorems.RunEffect | src/commands/apply-migrations.ts:436-503 | each version attempted and recorded loses a remaining attempt; all others, also one whose record is lost, keep their entries |
| MigrationTheorems.ProgressExactly | src/commands/apply-migrations.ts:471-486 | a run with work changes the ledger if and only if its first write lands |
| MigrationTheorems.RunAppends | src/commands/apply-migrations.ts:436-503 | no run removes a ledger entry |
| MigrationTheorems.StatusAfterRun | src/commands/apply-migrations.ts:436-505 | after a run each version attempted and recorded is applied exactly when it finished or was complete before; otherwise begun, or wedged if it was the third partial in a row; every other version keeps its status |
| MigrationTheorems.FailedRetryIsApplied | src/commands/apply-migrations.ts:132-146 | a completed version that is forced to retry and throws counts as applied again |
| MigrationTheorems.AttemptedExactly | src/commands/apply-migrations.ts:435-505 | a run goes on exactly while attempts finish, also partially, and are recorded, and it reports failure exactly when its last attempt does not |
| MigrationTheorems.WedgedExactly | src/commands/apply-migrations.ts:155-164 | a version is wedged exactly after three partials in a row with no complete ever |
| MigrationTheorems.GuardExactly | src/core/preferences.ts:152-158 | the guard drops exactly a second `complete` in a row, so there never are two |
| MigrationTheorems.PlanExactly | src/commands/apply-migrations.ts:190-205 | which of the five lists a version is in: newer than the binary, or by its status, and only if asked about |
| MigrationTheorems.RunLowersTotal | src/commands/apply-migrations.ts:421-503 | a run never raises the attempts remaining over the registry, and lowers them exactly when it has work and its first write lands |
| MigrationTheorems.BusyRunsBounded | src/commands/apply-migrations.ts:421-503 | whatever is lost, the runs with work number at most three per registered version plus the runs that lose their first write |
| MigrationTheorems.RunsEnd | src/commands/apply-migrations.ts:421-503 | if first writes land, after at most three runs per registered version every version in scope is applied or wedged |
| MigrationTheorems.AtMostThreeTries | src/commands/apply-migrations.ts:155-167 | over any number of runs a version is attempted at most three times, and once more for each attempt whose record is lost |
| MigrationTheorems.LostWritesRepeat | src/commands/apply-migrations.ts:451-502 | when every record is lost, each of any number of runs attempts the same first version again and the ledger stays as it was |
| MigrationTheorems.ForceUnwedgesExactly | src/commands/apply-migrations.ts:307-328 | the force pass makes exactly the wedged versions pending and leaves every other status alone |
| MigrationTheorems.ForceRetryMakesPending | src/commands/apply-migrations.ts:132-138 | a retry marker makes its version pending, even a complete one, and touches no other |
| Glob.Compile | scripts/select-e2e.ts:102-120 | the loop emits the concatenation of its tokens' texts |
| Glob.MatchGlob | scripts/select-e2e.ts:96-122 | unsupported globs are an error, all others are matched through the compiled expression |
| Glob.EmitParses | scripts/select-e2e.ts:102-120 | the emitted text parses, by the ECMA-262 grammar, to one term for each token of the glob |
| Glob.CompiledMeaning | scripts/select-e2e.ts:94-122 | which paths match, for every path: those that cut into fitting pieces in which no `**` crosses a line terminator |
| Glob.CompilePreservesMeaning | scripts/select-e2e.ts:94-122 | on paths without line terminators the compiled text matches exactly the glob's language |
| Glob.MatchExactly | scripts/select-e2e.ts:94-122 | what a match of the exported function means, for every supported glob and every path |
| Glob.RejectsExactly | scripts/select-e2e.ts:96-100 | a glob is rejected, by name, exactly when it holds `?`, `[` or `{` |
| Glob.DoubleStarStopsAtTerminator | scripts/select-e2e.ts:107-109 | `**` does not match any path with a line terminator |
| Glob.MeaningPreservedExactly | scripts/select-e2e.ts:94-122 | for a path, the compiled text agrees with the language of every glob if and only if the path has no line terminator |
| Selector.Classify | scripts/select-e2e.ts:143-149 | empty, documents only, or source |
| Selector.SelectTests | scripts/select-e2e.ts:151-187 | the selection with its early returns, set insertions and thrown glob errors |
| Selector.GatherFromMap | scripts/select-e2e.ts:174-178 | the loop over the map adds the tests of every matching entry, or stops at a rejected glob |
| Selector.GatherSpec | scripts/select-e2e.ts:165-179 | the gathered tests are exactly those asked for, each once |
| Selector.SelectedTests | scripts/select-e2e.ts:159-186 | test by test, what a source change selects |
| Selector.FailClosed | scripts/select-e2e.ts:8-12 | unless every change is a document, something is selected whenever there is a test |
| Selector.OrderAndRepetitionIrrelevant | scripts/select-e2e.ts:151-187 | order and repetition of changed files do not matter |
| Selector.DocIsNoEscapeHatch | scripts/select-e2e.ts:52-92 | no document path is an escape hatch |
| Selector.NoChangeRunsAll | scripts/select-e2e.ts:156 | with no change every test is emitted |
| Selector.TreeRunsAll | scripts/select-e2e.ts:79-92 | a change under any of the four trees emits every test, whatever else changed |
| Selector.SharedFileRunsAll | scripts/select-e2e.ts:61-77 | so does a change of any of the fourteen shared files |
| Selector.PagesRunNothing | scripts/select-e2e.ts:42-59 | a change set of pages under `docs/`, Markdown files at the root, license and version file emits nothing |
| Selector.ChangedTestIsSelected | scripts/select-e2e.ts:169-173 | a changed test is emitted itself |
| Selector.DocsChangeNothing | scripts/select-e2e.ts:143-187 | adding documents to a source change selects the same tests |
| Selector.EmitsAllExactly | scripts/select-e2e.ts:181-183 | with no escape hatch, all tests are emitted exactly when the change set asks for none or for all of them |
| Selector.MixedChangeSetNarrows | scripts/select-e2e.ts:9-10 | a mixed change set with an unmapped source file that does not emit all tests |
| ShellQuote.QuoteLexes | src/commands/connect.ts:276-279 | one quoted argument reads back as that argument, whatever follows |
| ShellQuote.CmdStringRoundTrip | src/commands/connect.ts:281-284 | the printed line reads back as the binary followed by exactly the arguments |
| ShellQuote.CmdStringInjective | src/commands/connect.ts:281-284 | different argument lists never print the same line |
| ShellQuote.BareExactly | src/commands/connect.ts:276-279 | an argument is printed bare exactly when it is a word of letters, digits and `_.:/@-` |
| ShellQuote.ClaudeTokenIsInert | src/commands/connect.ts:262-274 | whatever name, address and token hold, the pasted line reads back as exactly these nine words, the token inside the last |
| OpArgs.ParseOpArgs | src/cli.ts:781-813 | the scanning loop over flags, negations, values and positional words |
| OpArgs.DashesComeBack | src/cli.ts:2484 | the help's spelling of a key is read back as the key exactly when the key has no dash |
| OpArgs.NegationSpelling | src/cli.ts:789-795 | a printed flag is taken for a negation exactly when its key is `no_` before a boolean key |
| OpArgs.LineReads | src/cli.ts:781-813 | any readable interleaving of flags and words parses to what it means item by item |
| OpArgs.FlagText | src/cli.ts:796-804 | the text after a flag becomes a number exactly for a key declared so, and stays a text for every other |
| OpArgs.WordText | src/cli.ts:805-809 | a positional word likewise; a word too many is dropped |
| OpArgs.RecordRoundTrip | src/cli.ts:781-813 | a typed record printed as flags and words, in any order and interleaving, parses to itself |
| OpArgs.OnRoundTripExactly | src/cli.ts:789-800 | a boolean flag comes back exactly when its key has no dash and does not look negated |
| OpArgs.GivenRoundTripExactly | src/cli.ts:789-804 | a flag with a value comes back under the same condition, for every key that is not boolean and every text |
| OpArgs.OffRoundTripExactly | src/cli.ts:789-795 | a boolean set to false comes back exactly when its key has no dash |
| OpArgs.NoCacheIsMisread | src/cli.ts:789-795 | a concrete key pair for which the printed flag sets the other key |
| AgentLogs.LogReader.DumpSince | src/commands/agent-logs.ts:65-108 | one poll appends the sorted events after the watermark and moves the watermark to the last of them |
| AgentLogs.LogReader.Follow | src/commands/agent-logs.ts:48-57 | the loop prints poll after poll until the job is over or following is aborted |
| AgentLogs.LogReader.RunAgentLogs | src/commands/agent-logs.ts:33-58 | the first dump, and the loop only when following |
| AgentLogs.DumpSpec | src/commands/agent-logs.ts:71-93 | a poll prints exactly the visible events after the watermark, in time order |
| AgentLogs.TakenExactly | src/commands/agent-logs.ts:39-57 | which polls are taken: the first, and when following all up to the first later one that finds the job over, that one included |
| AgentLogs.TiesKeepOrder | src/commands/agent-logs.ts:74-87 | events of one moment come out as they were read, audit events before messages |
| AgentLogs.WatermarkExactly | src/commands/agent-logs.ts:60-64 | being past the new watermark means past the old one and later than everything the poll showed |
| AgentLogs.OutputInOrder | src/commands/agent-logs.ts:87-93 | over any polls, the output never goes back in time |
| AgentLogs.PrintedOnce | src/commands/agent-logs.ts:77-85 | no event is printed more often than one poll shows it |
| AgentLogs.PrintedExactly | src/commands/agent-logs.ts:42-57 | which events are ever printed, for any polls: an event that arrives late is lost |
| AgentLogs.FollowingIsOneDump | src/commands/agent-logs.ts:60-93 | when each new event is later than all visible ones, following prints one sorted dump of the final events |
| Enrich.EnrichRun.RecordCompleted | src/core/op-checkpoint.ts:174-201 | a write replaces the stored set or, failing without an error, leaves it |
| Enrich.EnrichRun.EnrichOne | src/commands/enrich.ts:288-394 | the branches of one page: which counter moves, whether the page is remembered, how the work ends |
| Enrich.EnrichRun.RunPool | src/core/worker-pool.ts:205-249 | one worker's loop with the flush of every 25 pages, going on after errors and stopping when the budget is spent |
| Enrich.EnrichRun.RunEnrichCore | src/commands/enrich.ts:400-507 | the run: early return, forced clear, resume, final write, clear after a clean end |
| EnrichMachine.StepsRefineCore | src/commands/enrich.ts:448-505 | given enough steps, the step-by-step machine ends in exactly the state the run ends in |
| EnrichTheorems.StepKeeps | src/commands/enrich.ts:468-505 | every single step keeps the invariant between store, memory, page in hand and lost pages |
| EnrichTheorems.MissingInSession | src/commands/enrich.ts:476-483 | wherever a session dies, at most 25 completed pages are not in the store, and 25 more for each write missed since |
| EnrichTheorems.SessionCost | src/commands/enrich.ts:484-505 | a session costs 25 pages if it crashes and 25 per failed write; one that ends, also by budget or abort, with its writes landing costs none |
| EnrichTheorems.CrashResumeBound | src/commands/enrich.ts:448-505 | over any history, the pages completed over again number at most 25 per crash and per failed write |
| EnrichTheorems.CrashCanCost25 | src/commands/enrich.ts:468-482 | the bound is reached: a run that dies before its first flush loses exactly 25 |
| EnrichTheorems.CountersExactly | src/commands/enrich.ts:453-496 | the counters add up to the pending pages exactly when the run neither exhausted the budget nor was cut short |
| EnrichTheorems.CountersByWorld | src/commands/enrich.ts:288-496 | each counter is the number of handled pages of its kind; a run that exhausts its budget reports no errors |
| EnrichTheorems.StoreAfterRun | src/commands/enrich.ts:448-505 | what the checkpoint holds after a run: nothing new after a dry run, nothing at a clean end, and after an abort or a spent budget all that was completed, if the last write landed |
| EnrichTheorems.FlushExactly | src/commands/enrich.ts:476-482 | the checkpoint is written after a page exactly when the page did not throw and 25 pages or more are new |
| EnrichTheorems.UnfinishedInOrder | src/commands/enrich.ts:453 | a resumed run looks at the candidates not yet done, in their order |
| EnrichTheorems.ClaimedExactly | src/core/worker-pool.ts:205-249 | an aborted pool has claimed the first pages up to the abort |
| EnrichTheorems.RunRemembersExactly | src/commands/enrich.ts:309-394 | what a run remembers: what it had and the handled pages it completed, as many as it counts enriched or insufficient |
| EnrichTheorems.DryRunKeepsStoreExactly | src/commands/enrich.ts:448-505 | a dry run leaves the checkpoint alone exactly when it is not forced, or there was nothing to lose or to do |
| MineWeights.GroupByJob | scripts/mine-shard-weights.ts:159-168 | the buckets hold each job's events in stream order, the keys in order of first appearance |
| MineWeights.NoteBucket | scripts/mine-shard-weights.ts:172-182 | one job's gaps are folded into the map |
| MineWeights.ComputeWeights | scripts/mine-shard-weights.ts:158-186 | the map after all jobs |
| MineWeights.GapsExactly | scripts/mine-shard-weights.ts:172-183 | the gaps of a job, position by position: to the next event, never negative, none for the last |
| MineWeights.ObservedExactly | scripts/mine-shard-weights.ts:158-183 | what the log shows of a file: the time from an event of it to the next event of the same job, whatever other jobs log in between |
| MineWeights.JobsByFirstAppearance | scripts/mine-shard-weights.ts:159-168 | each job has one place, in order of first appearance |
| MineWeights.WeightsExactly | scripts/mine-shard-weights.ts:145-186 | a file's weight is the largest gap observed for it in any job, and only observed files have one |
| MineWeights.InterleavingIrrelevant | scripts/mine-shard-weights.ts:158-186 | two logs with the same per-job event orders give the same map |

## Left out

- Floating point: weights are exact reals, so the bounds of the partition are about exact sums.
- Sort orders that depend on a locale: ids are ordered by a total order given as a parameter, and ISO timestamps by their time.
- Characters are UTF-16 code units without normalisation; regular expressions are the fragment of atoms and greedy `*` that the glob compiler can emit.
- Parsing of JSON, dates, numbers and log lines: `Number(text)` is a parameter of the argument parser, timestamps are integers of milliseconds.
- The file system, git, the database, queues, locks, gateways and processes: their contents and outcomes are parameters.
- Reading the brain directory: the pages are a list, and the canonical extractor of references and the extractor of titles are arbitrary functions.
- Object keys that JavaScript treats specially, such as `__proto__` as a flag name.
- Lexing double quotes, expansions and reserved words: `Lex` gives no result for a line that needs them.
- AgentLogs.LogReader.DumpSince: does not write the transcript tail of a first dump of a finished job; the text of log lines is opaque.
- AgentLogs.LogReader.Follow: does not write the closing line that names the terminal state.
- AgentLogs.LogReader.RunAgentLogs: leaves out the same transcript tail and closing line.
- Backlinks.BrainDir.FixBacklinkGaps: does not model writes that fail, or files that change during a pass.
- BacklinksTheorems.RepairConvergesExactly: is about pages whose file names hold no newline and do not end in white space, which every one-line name ending in `.md` meets.
- WaitingTheorems.WaitBounded: counts the shortest cooldown between dispatches of a failing source, not the doubled ones; cycles end before the next tick, and no source claims a success in the future.
- Migrations.BuildPlan: comparing versions is a parameter that says which versions are newer than the binary.
- Migrations.RunApplyMigrations: does not model two processes appending to the ledger at once, or malformed ledger lines, which the reader skips.
- Fanout.SelectSourcesForDispatch: `fanoutMax` is a natural number; the configuration that yields it is not modelled.
- FairnessTheorems.DispatchedByRank: is about runs in which every dispatched cycle succeeds before the next tick; with failures `WaitingTheorems.WaitBounded` applies.
- Enrich.EnrichRun.RunEnrichCore: does not model several workers, checkpoint loads or clears that fail, or the spend figures.
- EnrichTheorems.CrashResumeBound: is about one worker, candidates without repetition and sessions with one fingerprint; a forced or clean clear starts the count of completed pages anew.
- Dispatching global maintenance, the legacy single-source path, imbalance ratios, weight serialisation, help texts and flag parsers.
