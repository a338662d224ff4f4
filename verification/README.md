# StreamEth: a verified model

StreamEth asks Ethereum beacon nodes for block proposals, scores them against a sliding-window
history of votes, reports received and missed slots, and drains all rows through a pool of
batching database writers. This project models these algorithms in Dafny, with the branches,
constants and unsigned 64-bit arithmetic of the Go code, and proves what they promise.

| file | what it models |
|---|---|
| `U64.dfy` | unsigned slots with wrap-around, the 32-slot and 64-slot windows |
| `Votes.dfy` | attestations as sets of votes; what folding blocks into a history means |
| `Bitlists.dfy` | bitlists as heap objects in the nested slot -> committee map |
| `Scoring.dfy` | the source, target and head checks and the counting of new votes |
| `CreditOrder.dfy` | first carriers over all orders of a block's attestations; when the new votes depend on the order |
| `CommitteeOrder.dfy` | when any counter depends on the order, for bitfields of any length |
| `Counting.dfy` | the scorer's attestation loop over bitlists |
| `Slashing.dfy` | in-place sort and two-pointer merge of slashed indices |
| `PrunedRuns.dfy` | whole runs of both histories, pruned and never pruned |
| `HistoryBuilder.dfy` | the downward scan that fills the histories, over repeated calls |
| `Sessions.dfy` | start-up, head blocks, prunes and a score, end to end |
| `HeadTracker.dfy` | received and missed slots over whole runs of head events |
| `Analyzer.dfy` | the `ClientLiveData` object and its methods, proved against the above |
| `AnalyzerRuns.dfy` | whole runs of handler calls on one analyzer, and all they send |
| `MainRoutine.dfy` | the build loop over all analyzers |
| `WriterPool.dfy` | producers, channel, workers, shutdown, as a transition system |
| `PoolShutdown.dfy` | how runs of the pool end, and what they never write |
| `PoolLosses.dfy` | exactly which losses a shutdown can have |
| `EpochCache.dfy` | the two-epoch committee cache against an oracle |

The methods of `ClientLiveData` change the object in place; each is proved equal to a
specification function on values (`Absorb`, `PruneStore`, `TallyOf`, `Scan`, `HeadRows`), and
the theorems are about these functions and about runs of them. `PrunedRuns.Step` names the same
functions for the events of a run.

## What holds and what does not

- Pruning is unobservable inside the windows of the highest slot pruned at, for any order of
  blocks, roots and proposals, so also when proposals run as goroutines and prune out of order.
  No assumption on bitfield lengths is needed. The window is exact: outside it every vote has a
  run in which pruning shows (`PruningShowsOutsideWindow`). Over whole runs of handler calls, all
  rows sent are those of the same run without pruning (`LogSurvivesPruning`).
- Keeping 64 slots of roots covers every attestation the 32-slot window keeps, except in the one
  epoch that starts at 2^64 - 64, where the unsigned sum wraps to zero
  (`RootWindowCoversVoteWindow`, `WrappingEpochLosesItsRoot`).
- Roots are recorded only while the history is built; no handler records one. So the root history
  only shrinks (`RootsAfterCalls`), the target of an epoch that starts after the build is always
  taken as correct (`SessionTargets`), and once a proposal comes more than 64 slots after the
  build, and not before, no root is left and CorrectTarget equals NewVotes for good
  (`TargetsGoUnchecked`).
- Bitlists take the length of the first attestation seen. With bitfields of unequal length for
  one committee a vote past that length is not remembered: the history can then depend on the
  order of the blocks. It does not, if and only if for every committee that both blocks are the
  first to carry, each new vote fits the first length of the one block exactly when it fits that
  of the other (`OrderIndependentIff`). The scorer counts a vote that does not fit once per
  attestation; `NewVotesExact` says exactly when the count is right.
- Every counter can depend on the order of the attestations. NewVotes does not, if and only if every
  new vote that two attestations carry fits every bitfield of its committee, as it does with
  committee-sized ones; CorrectSource, if and only if the timely ones do
  (`NewVotesAndSourceOrderIff`). CorrectTarget and CorrectHead are credited to the first carrier of
  a vote. When NewVotes is free of the order they are too, if and only if attestations that share a
  new vote agree on the check (`OnceCountedOrderIff`). On every input the exact condition is that in
  each committee, whichever attestation comes first, the carriers of the votes it leaves open agree
  and the counter it leads to is the same (`CreditOrderFreeIff`); the two parts can cancel
  (`DisagreementCanCancel`).
- Below slot 64 the scan's lower bound wraps above the head, so it visits nothing. A call gets the
  head recorded if and only if it was already, or is at least 64 with its block available
  (`HeadRecordedIff`). So while the nodes keep reporting the same heads the build loop ends, by its
  second pass, exactly when this holds for every analyzer (`SteadyLoopResult`); one head below 64
  or without a block keeps all analyzers waiting. While heads move on, the loop that starts with
  nothing recorded ends at the first pass at which no head has moved since the pass before and
  every head could be built (`MovingHeadsEndTheLoop`).
- At head 64 the lower bound is 0, and only a recorded slot stops the scan: it never ends, if and
  only if no slot is recorded and no block available (`ScanNeverEndsIff`).
- If the head moves 34 or more slots between two build calls, a vote carried only by a block in
  the gap can be lost although its root is recorded (`WiderGapMissesVotes`); no chain loses votes
  if and only if no two consecutive heads are more than 33 slots apart (`MissesNothingIff`).
- The README of the original says a skipped slot is stored as missed. A head after the current one
  reports every slot it skips, if and only if the current head is not slot 0 or nothing is skipped
  (`GapReportedIff`, and `IncreasingRunReportsAllIff` over runs). A head that moves back from slot
  2^64 - 1 reports slots as missed (`BackwardHeadReportsNoMiss`).
- A writer that leaves does not flush its batch. Of `n` accepted tasks an orderly shutdown can lose
  exactly the numbers up to `n` that leave whole batches and fit into a batch less one task for
  every worker (`OrderlyLossIff`). So it can lose some, if and only if batches hold more
  than one task and there are several workers, or one for which the tasks are not whole batches;
  it can write all, if and only if they are whole batches (`OrderlyLossPossibleIff`).
- Any other shutdown, also a cancel right after DoneTasks, can lose the channel's capacity on top,
  and again every number of that kind (`AnyLossIff`, `LoseByCancel`).
- Without a cancel the channel holds at the end exactly the tasks produced after the last worker
  left (`ShutdownLoss`), and such tasks are never written (`LateTaskIsStranded`).
- The committee cache never serves epoch 0 (`EpochZeroIsNeverServed`).

## Model

| member | source | states |
|---|---|---|
| U64.RootWindowCoversVoteWindow | pkg/analysis/analyzer.go:84-94 | an attestation kept by the 32-slot prune has the first slot of its epoch kept by the 64-slot prune, if and only if that epoch does not start 64 below 2^64 (or the proposal is at slot 0) |
| U64.WindowsMeaning | pkg/analysis/analyzer.go:84-94 | in integers: an entry survives the prune at a slot if and only if that slot is at most 32 after it, and a root at most 64; at the top of the range the end of the window has wrapped |
| U64.AddSubMeaning | pkg/analysis/analyzer.go:84-102 | sums and differences of slots are taken modulo 2^64 |
| Votes.VotesMeaning | pkg/analysis/history.go:31-50 | a vote is a set bit of the attestation, under its slot and committee index |
| Votes.AbsorbMeaning | pkg/analysis/history.go:31-54 | the history after a block is the old votes plus exactly the block's votes that fit the bitlist of their slot and committee |
| Votes.AbsorbLengths | pkg/analysis/history.go:34-42 | a bitlist exists for every committee seen, with the length of the first attestation that needed it |
| Votes.PruneMeaning | pkg/analysis/analyzer.go:84-88 | a prune keeps exactly the votes and the bitlists of slots that are at most 32 before it, with their lengths |
| Votes.AbsorbIsUnion | pkg/analysis/history.go:31-54 | folding a block in is set union of votes if and only if its votes fit |
| Votes.SizedVotesFit | pkg/analysis/history.go:40-42 | with committee-sized bitfields every vote fits, now and in every later block |
| Votes.AbsorbOrderIndependent | pkg/analysis/history.go:31-54 | with committee-sized bitfields and history, absorbing is idempotent, and blocks may be absorbed in any order and any aggregation |
| Votes.OrderIndependentIff | pkg/analysis/history.go:31-54 | for any two lists, absorbing them in either order gives the same votes if and only if every vote of either list that is not in the history, and whose committee is new to it and carried by both lists, fits both first lengths or neither |
| Votes.UnequalLengthsOrderMatters | pkg/analysis/history.go:40-51 | for any two attestations of one committee new to the history, every vote of the longer one past the end of the shorter one is held after one order and not after the other |
| Bitlists.EnsureBitlist | pkg/analysis/history.go:34-42 | the slot's map and the committee's bitlist are created only when absent, sized by the attestation, and no other entry changes |
| Bitlists.RecordVotes | pkg/analysis/history.go:44-52 | the in-place loop leaves the nested map holding the old votes plus the attestation's fitting ones |
| Bitlists.CountNewVotes | pkg/analysis/metrics.go:60-74 | the count is the number of the attestation's votes in neither map; only the per-block map changes |
| Bitlists.BitIndices | pkg/analysis/metrics.go:60 | the indices are exactly the set bits, ascending |
| Scoring.ChecksMeaning | pkg/utils/attestation.go:10-52 | source means at most five slots later, head means the next slot and the parent root, target fails only against a recorded different root at the epoch's first slot; a correct head is a correct source, with wrap-around |
| Scoring.TallyCredits | pkg/analysis/metrics.go:75-91 | the running counters are the new votes credited to attestations passing each check, and 64 times the attestation score is 14 source + 26 target + 14 head |
| Scoring.CreditMeaning | pkg/analysis/metrics.go:45-89 | every counter is the number of distinct new votes whose first carrier passes the check, plus the votes counted again because they did not fit |
| Scoring.NewVotesExact | pkg/analysis/metrics.go:45-89 | NewVotes is at least the number of distinct new votes, equal if and only if no vote past the bitlist's end is carried twice; then new plus already known is the number of distinct votes of the block |
| Scoring.CreditsExact | pkg/analysis/metrics.go:75-89 | when no vote is counted twice, CorrectSource is the number of new votes with a timely slot, and target and head count the new votes whose first carrier passes |
| Scoring.SizedNeverDoubleCounts | pkg/analysis/metrics.go:56-58 | committee-sized bitfields meet the condition |
| Scoring.AggregationInvariant | pkg/analysis/metrics.go:45-89 | when neither list counts a vote twice (`NoDoubleCount`), NewVotes and CorrectSource depend only on the set of votes carried, not on order, splitting or merging |
| Scoring.PermutationKeepsVotes | pkg/analysis/metrics.go:46 | permuting the attestations keeps the votes carried and the committee sizes |
| Scoring.MergeKeepsVotes | pkg/analysis/metrics.go:46 | merging two aggregates of a committee keeps the votes carried |
| CommitteeOrder.CreditOrderFreeIff | pkg/analysis/metrics.go:56-89 | for any check and bitfields of any length, a counter is the same in every order of the attestations if and only if in each committee, for every attestation put first, the carriers of each vote it leaves open agree on the check, and the counts it leads to are equal |
| CommitteeOrder.TargetAndHeadOrderIff | pkg/analysis/metrics.go:80-87 | so for CorrectTarget and CorrectHead on every input |
| CommitteeOrder.CreditSplits | pkg/analysis/metrics.go:56-89 | a counter is the sum of the counters of one committee and of the others: no committee changes what another is credited |
| CommitteeOrder.CreditWithFirst | pkg/analysis/metrics.go:56-89 | in an order of one committee that begins with a given attestation, the counter is that attestation's new votes, the votes it leaves open whose first carrier passes, and the votes past its end once for every passing carrier |
| CommitteeOrder.DisagreementCanCancel | pkg/analysis/metrics.go:56-89 | a family of inputs on which carriers of a new vote disagree and the counter is still the same in every order |
| CreditOrder.NewVotesAndSourceOrderIff | pkg/analysis/metrics.go:56-79 | on every input NewVotes is the same in every order if and only if every new vote that two attestations carry fits the bitfield of every attestation of its committee, and CorrectSource if and only if the timely ones among these votes do |
| CreditOrder.CommitteeCheckOrderIff | pkg/analysis/metrics.go:56-79 | the same for any check that only looks at the slot and the committee |
| CreditOrder.NewVotesDependOnOrder | pkg/analysis/metrics.go:56-74 | any attestation of a committee and two carriers of a new vote past its end make NewVotes depend on the order |
| CreditOrder.SizedNewVotesOrderFree | pkg/analysis/metrics.go:56-74 | with committee-sized bitfields NewVotes is the same in every order |
| CreditOrder.OnceCountedOrderIff | pkg/analysis/metrics.go:75-89 | when NewVotes is the same in every order, a counter is if and only if any two attestations that share a new vote agree on its check |
| CreditOrder.PassingOrderFreeIff | pkg/analysis/metrics.go:75-89 | on every input the number of distinct new votes whose first carrier passes is the same in every order if and only if attestations that share a new vote agree |
| CreditOrder.ExtremeOrders | pkg/analysis/metrics.go:75-89 | on every input: with passing attestations first, the new votes whose first carrier passes are those that some passing one carries; with failing ones first, those of them that no failing one carries |
| CreditOrder.TargetDependsOnOrder | pkg/analysis/metrics.go:80-83 | any two carriers of one vote with different targets, one of them recorded, make CorrectTarget depend on their order, whatever their lengths |
| Scoring.CreditMonotone | pkg/analysis/metrics.go:62-87 | a larger history and a stricter check never raise a counter |
| Scoring.ScoreBounds | pkg/analysis/metrics.go:75-91 | CorrectHead <= CorrectSource <= NewVotes, CorrectTarget <= NewVotes, and the attestation score is at most 54/64 a new vote, for every input |
| Scoring.ScoreMonotone | pkg/analysis/metrics.go:62-91 | enlarging the vote history or the root history never raises NewVotes, any counter or the score |
| Scoring.NothingNew | pkg/analysis/metrics.go:62-74 | a block whose votes are all in the history earns nothing |
| Scoring.ZeroScoreIff | pkg/analysis/metrics.go:62-91 | all counters and the score are zero if and only if every vote of the block is in the history |
| Scoring.AbsorbedBlockScoresZero | pkg/analysis/metrics.go:62-74 | after a block is absorbed, a proposal repeating only its votes and known ones scores zero in every counter, if and only if each of these votes was known before or fits its bitlist |
| Scoring.TallyLocal | pkg/analysis/metrics.go:46-91 | scores depend only on the history at the slots the proposal votes for and on the target verdicts |
| Slashing.SortSlice | pkg/analysis/metrics.go:149-150 | the slice is left a sorted permutation of itself |
| Slashing.Intersection | pkg/analysis/metrics.go:148-169 | the result is sorted and is the multiset intersection of the inputs, which are left sorted permutations of themselves, also when both are the same slice |
| Slashing.SortedIsCanonical | pkg/analysis/metrics.go:148-169 | so the result does not depend on the order of the inputs or of their items |
| Slashing.SharedIsSetIntersection | pkg/analysis/metrics.go:146-147 | the count is at least the size of the set intersection, and equal to it if and only if no index occurs more than once in both lists |
| Slashing.ScoreSlashings | pkg/analysis/metrics.go:124-144 | 172800 64ths (2700) for every proposer slashing and every slashed index; the arrays are only reordered, and the count another call would see is unchanged |
| Slashing.IndicesSlashedAddUp | pkg/analysis/metrics.go:133-143 | the slashed indices are the sum over all attester slashings of the multiset intersections of their two index lists |
| Slashing.IndicesSlashedInAnyOrder | pkg/analysis/metrics.go:133-143 | and do not depend on the order of the slashings |
| PrunedRuns.PruningIsUnobservable | pkg/analysis/analyzer.go:84-94 | over any run, in any order of prunes, the pruned histories agree with the unpruned ones on everything in the windows of the highest prune, and hold nothing that was not absorbed, even where a deleted slot is re-created |
| PrunedRuns.UnprunedIsUnion | pkg/analysis/history.go:31-54 | over a run with committee-sized bitfields the unpruned history is the union of all absorbed votes |
| PrunedRuns.PrunedIsUnionInWindow | pkg/analysis/analyzer.go:84-88 | so for a vote at most 32 slots before the highest prune (counting through the wrap) the pruned history is that union, and elsewhere a subset of it |
| PrunedRuns.ScoresSurvivePruning | pkg/analysis/analyzer.go:84-94 | a proposal whose attestations lie in the window of the highest prune, and not in the wrapping epoch, gets the same counters and score as without pruning |
| PrunedRuns.WrappingEpochLosesItsRoot | pkg/analysis/analyzer.go:90-94 | in the excluded epoch every kept attestation has a run where pruning changes its target verdict |
| PrunedRuns.PruneTwice | pkg/analysis/analyzer.go:84-94 | two prunes in either order equal the later one |
| PrunedRuns.RootsOnlyShrink | pkg/analysis/analyzer.go:90-94 | in a run that records no root the root history is exactly what the highest prune leaves of the one at the start |
| PrunedRuns.PruningShowsOutsideWindow | pkg/analysis/analyzer.go:84-88 | for every attestation with a vote and every slot, some run with that highest prune changes how many of its votes are new, if and only if the slot is more than 32 after the attestation (counting through the wrap) |
| HistoryBuilder.ScanIsRun | pkg/analysis/history.go:81-114 | building the history is a run of recordings and absorptions without a prune |
| HistoryBuilder.ScanRoots | pkg/analysis/history.go:81-108 | a scan records exactly the available slots above the first recorded one in the window, with their roots, and changes no other root |
| HistoryBuilder.ScanVotes | pkg/analysis/history.go:110-112 | of these it absorbs exactly those at most 32 slots behind the head (and below the slots where the sum wraps) |
| HistoryBuilder.ScanKeepsBuilt | pkg/analysis/history.go:81-114 | a call at a head not below the last one keeps every available slot of the head and the 64 before it recorded |
| HistoryBuilder.BuildRunFillsWindow | pkg/analysis/history.go:72-116 | after any number of calls at non-decreasing heads the window is full, the votes are exactly the ones collected call by call, and another call at the same head changes nothing |
| HistoryBuilder.BuildRunRoots | pkg/analysis/history.go:81-108 | with gaps of at most 65 the recorded slots are exactly the available ones from 64 before the first head to the last head |
| HistoryBuilder.CloseHeadsMissNothing | pkg/analysis/history.go:110-112 | with available non-decreasing heads above 64 and gaps of at most 33 the votes are those of all available blocks from 32 slots before the first head |
| HistoryBuilder.WiderGapMissesVotes | pkg/analysis/history.go:110-112 | for any heads with a gap of 34 or more anywhere and any attestation, some chain has that attestation's votes in the window and the calls collect none of them |
| HistoryBuilder.MissesNothingIff | pkg/analysis/history.go:110-112 | no chain loses votes if and only if all gaps are at most 33 (non-decreasing heads above 64) |
| HistoryBuilder.YoungChainNeverBuilds | pkg/analysis/history.go:81 | below slot 64 a call changes nothing |
| HistoryBuilder.HeadRecordedIff | pkg/analysis/history.go:74-108 | after a call the head is recorded if and only if it was before, or it is at least 64 and its block is available |
| HistoryBuilder.ScanAddsAvailable | pkg/analysis/history.go:81-108 | a scan forgets no root and records only slots of available blocks, also on its way around the unsigned range |
| HistoryBuilder.ScanNeverEndsIff | pkg/analysis/history.go:81-114 | at head 64 every visit of the unsigned range neither stops the scan nor changes the histories, if and only if no slot is recorded and no block available, which is exactly when the scan has no end |
| Sessions.SessionRemembers | pkg/analysis/analyzer.go:84-94 | after building the history and any run of head blocks and proposals, the history holds, of the slots at most 32 before the highest prune, exactly the votes of the blocks since 32 slots before the first head, and a subset elsewhere |
| Sessions.SessionTally | pkg/analysis/metrics.go:45-91 | a proposal in the window is tallied as against the plain set of those votes and every root recorded, with bitfields of any length in the proposal |
| Sessions.SessionScoresUnknownVotes | pkg/analysis/metrics.go:45-120 | so, with committee-sized bitfields and outside the wrapping epoch, the row of a proposal in the window counts the votes not known from those blocks: all, the timely ones, and those whose first carrier has the right target (against every root recorded) or the right head |
| Sessions.SessionTargets | pkg/utils/attestation.go:20-32 | with no root recorded after the build, a target counts as correct, if and only if it equals the root of its epoch's first slot, or that slot has no block, is not between 64 before the first head of the build and its last head, or is pruned |
| Sessions.TargetsGoUnchecked | pkg/analysis/analyzer.go:90-94 | no root is left if and only if a proposal came more than 64 slots after the last head of the build (a head below 2^64-64); then CorrectTarget equals NewVotes for every proposal; and no target can be wrong, if and only if no epoch start is among the roots left |
| HeadTracker.IncreasingRunIsTimeline | pkg/analysis/events.go:43-71 | over strictly increasing nonzero heads the rows are exactly one for every slot from the first head to the last, ascending, received if it was a head and missed if not |
| HeadTracker.IncreasingRunHasNoDuplicates | pkg/analysis/events.go:43-71 | so no slot gets two rows |
| HeadTracker.EverySlotReported | pkg/analysis/events.go:43-71 | for nonzero heads in any order every slot from the first to the highest is reported at least once |
| HeadTracker.BackwardHeadReportsNoMiss | pkg/analysis/events.go:43-45 | a head at or below the current one reports no missed slot, if and only if the start of the gap does not wrap |
| HeadTracker.HeadAtZeroIsForgotten | pkg/analysis/events.go:43 | after a head at slot 0 the tracker reports as if it had seen none |
| HeadTracker.GapReportedIff | pkg/analysis/events.go:43-55 | a head after the current one reports every slot it skips, if and only if the current one is not slot 0 or nothing is skipped |
| HeadTracker.IncreasingRunReportsAllIff | pkg/analysis/events.go:43-71 | over increasing heads every slot from the first to the last is reported, if and only if the first is not slot 0, or is the only one, or is followed by slot 1 |
| HeadTracker.EpochsFollowMidpoints | pkg/analysis/events.go:57-62 | proposers are prepared for exactly the epochs after one whose midpoint was a head |
| HeadTracker.EpochsIncrease | pkg/analysis/events.go:57-62 | over increasing heads these epochs are strictly increasing |
| Analyzer.ClientLiveData.constructor | pkg/analysis/analyzer.go:59-73 | a new analyzer has empty histories, head 0 and nothing sent |
| Analyzer.ClientLiveData.UpdateAttestations | pkg/analysis/history.go:16-56 | the nested map, changed in place, holds the old history with the block absorbed |
| Analyzer.ClientLiveData.BlockMetrics | pkg/analysis/metrics.go:25-121 | the row is the tally against the two histories plus sync and slashing parts; neither history changes, and a second call gives the same row |
| Counting.ScoreAttestations | pkg/analysis/metrics.go:45-93 | the loop over fresh per-block bitlists computes the tally, and changes nothing that existed before |
| Analyzer.ClientLiveData.ProposeNewBlock | pkg/analysis/analyzer.go:80-137 | both histories are pruned even when the node is behind; exactly one row is sent if and only if the slot is at most 32 after the head (in integers, with the wrapped heads apart), and it reports the response column by column: for an answer the counters against the pruned histories, the score as the 14/26/14 sum plus its parts, and each part alone; for a failure -1, the slot, the label and zeros; the status is 1 only after a scored answer |
| Analyzer.ClientLiveData.PruneAttestations | pkg/analysis/analyzer.go:84-88 | deleting while iterating in any key order leaves exactly the entries at most 32 slots before the proposal, unchanged |
| Analyzer.ClientLiveData.PruneRootHistory | pkg/analysis/analyzer.go:90-94 | the same for the roots and 64 slots |
| Analyzer.ClientLiveData.BuildHistory | pkg/analysis/history.go:60-117 | true exactly when the head was already recorded, and then nothing changes; else the scan runs to its end, through the unsigned wrap too |
| Analyzer.ClientLiveData.HandleHeadEvent | pkg/analysis/events.go:16-73 | without a block nothing changes; else the block is absorbed, the rows of the gap and the head are sent in order with the node's label, the head moves, and the epoch is prepared at midpoints |
| Analyzer.ClientLiveData.ReportMissed | pkg/analysis/events.go:45-54 | one missed row for every slot strictly between the heads, ascending |
| Analyzer.RowIsConsistent | pkg/analysis/metrics.go:95-120 | in a sent row the counters bound each other, the score is their weighted sum plus the sync and slashing columns, and a failed request scores below every answer |
| Analyzer.RowColumns | pkg/analysis/metrics.go:101-120 | on every input each column of a scored row counts what it is named after: the fresh votes, the timely ones, those whose first carrier has the right target or head, each plus the votes counted again; the set sync bits; and the score and each of its parts |
| Analyzer.ResponseRowReports | pkg/analysis/analyzer.go:96-129 | an answered request gives the row of its proposal, a failed one a row with score -1, the slot and the label and zeros elsewhere |
| Analyzer.UnsyncedMeaning | pkg/analysis/analyzer.go:102 | the guard in integers: a node may be up to 32 slots behind, with the wrapped heads apart |
| Analyzer.RowCountsOnceIff | pkg/analysis/metrics.go:62-89 | no column counts a vote again if and only if no vote past the end of the block's bitlist is carried twice |
| Analyzer.RowSurvivesPruning | pkg/analysis/analyzer.go:84-129 | the row of a proposal in the window of the highest prune, outside the wrapping epoch, is the same as without pruning |
| AnalyzerRuns.ServeAll | pkg/app/service.go:202-237 | after any sequence of head events and ticks on one analyzer, with any answers: the histories are those of the run of the blocks and prunes, the head and the prepared epochs follow the heads whose block was fetched, and the tasks sent are exactly the log, with slashed indices as they were at the start |
| AnalyzerRuns.AfterMeaning | pkg/app/service.go:202-237 | call by call the handlers lead through snapshots that end in these closed forms |
| AnalyzerRuns.SentHeadRows | pkg/analysis/events.go:43-71 | the head rows in everything sent are those of the heads whose block was fetched, untouched by the ticks |
| AnalyzerRuns.SentTimeline | pkg/analysis/events.go:43-71 | so a new analyzer with increasing nonzero heads has sent one head row for every slot from the first to the last |
| AnalyzerRuns.SentScoreRows | pkg/analysis/analyzer.go:96-137 | over any calls the score rows are one for every tick at most 32 slots after the head it found, in tick order, and each reports the response to its tick column by column against the histories of that moment |
| AnalyzerRuns.SentScoreSlots | pkg/analysis/analyzer.go:96-137 | when proposals carry the slot asked for, the slots of the score rows are those of the ticks at most 32 slots after the head they found, in tick order |
| AnalyzerRuns.OneRowPerSyncedSlot | pkg/app/service.go:226-237 | so with increasing ticks exactly one score row is sent for every such slot, with strictly increasing slots |
| AnalyzerRuns.SyncedTicksMeaning | pkg/analysis/analyzer.go:102 | the ticks listed are exactly those at most 32 slots after the head they found |
| AnalyzerRuns.LogIsLabelled | pkg/analysis/events.go:47-70 | every task sent carries the node's label |
| AnalyzerRuns.LogSurvivesPruning | pkg/analysis/analyzer.go:84-137 | when every scored attestation is in the window at its tick and outside the wrapping epoch, everything sent over the run is what would be sent without any pruning |
| AnalyzerRuns.InOrderLogSurvivesPruning | pkg/analysis/analyzer.go:84-137 | with increasing ticks it is enough that every scored attestation is at most 32 slots before its tick and outside the wrapping epoch |
| AnalyzerRuns.RootsAfterCalls | pkg/analysis/analyzer.go:90-94 | over any handler calls the root history is what the highest prune leaves of it |
| MainRoutine.BuildPass | pkg/app/service.go:192-198 | one pass scans for every analyzer and is true exactly when every head was recorded before it |
| MainRoutine.BuildHistories | pkg/app/service.go:189-199 | the loop stops at the first pass that finds every head recorded, and at no other |
| MainRoutine.SteadyHeadsEndTheLoop | pkg/app/service.go:189-199 | while heads stay the same, any pass after the first finds nothing to fill if and only if every head was recorded at the start, or is at least 64 with its block available |
| MainRoutine.SteadyLoopResult | pkg/app/service.go:189-199 | so the loop over steady heads ends, after at most two passes, if and only if that holds for every analyzer |
| MainRoutine.MovingHeadsEndTheLoop | pkg/app/service.go:189-199 | for analyzers with nothing recorded at the start and heads that never move back (none at slot 64), a pass finds nothing to fill if and only if no head moved since the pass before and each is above 64 with its block available |
| MainRoutine.MovingLoopResult | pkg/app/service.go:189-199 | so with available heads the loop stops at the first pass that repeats the heads of the one before |
| MainRoutine.PassFillsIff | pkg/app/service.go:192-198 | one pass leaves nothing to fill if and only if that holds, and a pass with nothing left changes nothing |
| MainRoutine.YoungNodeBlocksTheLoop | pkg/app/service.go:189-199 | one node that stays below slot 64 and has nothing recorded keeps the loop from stopping |
| MainRoutine.UnfetchableHeadBlocksTheLoop | pkg/app/service.go:189-199 | so does one with nothing recorded whose reported heads never have a block |
| WriterPool.ReachableInv | pkg/postgresql/service.go:117-166 | in every reachable state each accepted task is exactly once executed, in a worker's batch or in the channel; executed batches hold exactly maxBatchQueue tasks (one if that is zero) and others not being executed fewer; the wait group counts the live workers |
| WriterPool.NoExecutionAfterClose | pkg/postgresql/service.go:168-175 | once the pool is closed no batch is ever executed |
| WriterPool.OrderlyShutdown | pkg/postgresql/service.go:112-162 | without a cancel and without producers after DoneTasks, when all workers are gone the channel is empty and at most workerNum*(maxBatchQueue-1) tasks were not executed |
| PoolLosses.ShutdownBoundIsTight | pkg/postgresql/service.go:131-162 | for any number of workers and batch size some orderly run loses exactly that many |
| PoolShutdown.LateTaskIsStranded | pkg/postgresql/service.go:131-169 | for any number of workers there is a run in which a task accepted after the last worker left stays in the channel of the closed pool |
| PoolShutdown.NothingReceivedAfterLastExit | pkg/postgresql/service.go:131-175 | once all workers are gone, on every further run nothing is received or executed and the channel and the accepted tasks grow by exactly the tasks produced |
| PoolShutdown.ChannelHoldsLateTasks | pkg/postgresql/service.go:131-162 | a run without a cancel that ends with all workers gone leaves in the channel exactly the tasks produced after the last exit, so an empty one if and only if there were none |
| PoolShutdown.ShutdownLoss | pkg/postgresql/service.go:131-162 | such a run never writes these tasks and at most workerNum*(batch-1) others; the loss has the same remainder by the batch size as the accepted tasks, and is exactly that remainder for one worker without late tasks |
| PoolShutdown.OneWorkerLosesRemainder | pkg/postgresql/service.go:131-162 | an orderly run of one worker loses exactly the remainder of the accepted tasks by the batch size |
| PoolLosses.OrderlyLossIff | pkg/postgresql/service.go:112-162 | an orderly run can accept n tasks and never write exactly L of them, if and only if L is at most n and at most workerNum*(maxBatchQueue-1) and has the remainder of n by maxBatchQueue |
| PoolLosses.OrderlyLossPossibleIff | pkg/postgresql/service.go:112-162 | so some loss of n tasks is possible if and only if n > 0, batches hold more than one task, and there are several workers or n is not whole batches; and writing all n is possible if and only if n is whole batches |
| PoolLosses.AnyLossIff | pkg/postgresql/service.go:112-175 | any run to the end, cancelled or not, can lose exactly the numbers L of that remainder up to n and capacity + workerNum*(maxBatchQueue-1) |
| PoolLosses.LoseByCancel | pkg/app/service.go:132-159 | each of these losses comes from an orderly run followed by DoneTasks, a cancel and nothing but the workers leaving |
| PoolShutdown.ShutdownIsAlwaysPossible | pkg/postgresql/service.go:117-162 | from every state with the invariant after DoneTasks some orderly run launches the remaining workers, drains the channel and lets all of them leave |
| PoolShutdown.OrderlyRunCanFinish | pkg/postgresql/service.go:112-162 | so every orderly run in which DoneTasks was called can be extended to one that ends as `OrderlyShutdown` says |
| WriterPool.MeasureDecreases | pkg/postgresql/service.go:129-162 | after DoneTasks channel length plus workers to go never grows, and falls exactly at receives, launches and exits |
| WriterPool.ShutdownIsBounded | pkg/postgresql/service.go:129-162 | so any schedule has at most that many of these steps |
| WriterPool.LiveWorkerProgresses | pkg/postgresql/service.go:129-162 | and a live worker always has at most three steps of its own that lower it: nothing deadlocks |
| WriterPool.OneWorkerKeepsOrder | pkg/postgresql/service.go:136-150 | with one worker executed ++ batch ++ channel is the accepted sequence, so what is executed is a prefix in order |
| EpochCache.EpochStructs.RequestNewBeaconCommittee | pkg/analysis/additional_structs/epoch.go:40-57 | a failed request changes nothing; a successful one rotates both lists with their epochs |
| EpochCache.EpochStructs.GetBeaconCommittee | pkg/analysis/additional_structs/epoch.go:59-81 | the answer is the oracle's committee if its epoch is a loaded current or previous one and nil otherwise; an answered request for a newer epoch makes it current, the current one previous, and is served; otherwise nothing changes; lists stay filed under their epochs |
| EpochCache.NewerEpochIsLoaded | pkg/analysis/additional_structs/epoch.go:47-70 | after an answered request for a newer epoch the committees of that epoch and of the one current before are answered, and no others |
| EpochCache.CurrentIsNewestAnswered | pkg/analysis/additional_structs/epoch.go:59-67 | over any requests the current epoch is the newest one answered |
| EpochCache.RacyAnswerIsOracles | pkg/analysis/additional_structs/epoch.go:67-80 | with any number of rotations between the unlock and the reads, an answer that is not nil is the oracle's |
| EpochCache.OthersKeepConsistent | pkg/analysis/additional_structs/epoch.go:59-67 | over any requests, answered or failed, lists belong to the epoch they are filed under and the current epoch never decreases |
| EpochCache.EpochZeroIsNeverServed | pkg/analysis/additional_structs/epoch.go:63 | committees of epoch 0 are never answered |

## Left out

- Beacon-node requests, event subscription and proposer duties: their answers are parameters (an optional block, a response, a head slot).
- Non-404 errors while building the history, which panic, and a nil proposal body.
- SQL, transactions and `ExecuteBatch` errors: executing is appending the batch to a log.
- Block files, SSZ, metrics exporter, logging, flags and configuration.
- The byte layout of bitlists: a bitlist is a fixed-length sequence of bits behind a reference.
- Floating point: scores are exact integers in units of 1/64, the only divisor.
- Timestamps, durations, execution and consensus values, and the conversion of slots to signed integers for rows.
- Attestation and reorg events: straight-line producers of one row.
- Data races on the maps: every handler call is one atomic step. Interleavings are modelled in the writer pool and in the committee cache.
- The blocking of a send on a full channel inside the handlers; the pool model has it.
- Analyzer.ClientLiveData.BuildHistory: at head 64 requires a recorded slot or an available block, because without either the scan goes around the unsigned range for ever. MainRoutine asks the same of each chain.
- HistoryBuilder.ScanKeepsBuilt: covers heads above 64; below 64 nothing is scanned, and at 64 the scan may go on past slot 0.
- MainRoutine.BuildHistories: the nodes' answers are a finite list, so the loop also ends when the list does.
- AnalyzerRuns.ServeAll: calls come one at a time, for one analyzer; waiting for the ticker, the finish flag and the spawning of goroutines are not modelled.
- MainRoutine.MovingHeadsEndTheLoop: heads at slot 64 and heads that move back are not covered, nor blocks that appear between passes: each node serves a fixed chain.
- WriterPool.ReachableInv: the workers are a transition system, not loops; the two reads of the finish test are one step, which loses no behaviour because the finish counter only grows.
