# Verified model of the community platform's stateful cores

This project models the parts of the community platform whose behaviour depends on a history of events, runs or
requests, and proves what they keep over every history.

- `GsiLines`, `GsiBlocks`, `GsiParserLaws`, `GsiStager`, `GsiStagerLaws`, `GsiRuns`, `GsiBytes`, `GsiCounterexample`: the tool
  that stages a table template's indexes over several deployments. It parses the index section, prints a chosen subset
  back and keeps a cache. A file is the sequence of its lines; each line carries its bytes and what the tool tests
  about it.
- `MembershipLog`, `MembershipLaws`, `MembershipProjection`, `MembershipProjectionLaws`, `MembershipRace`,
  `MembershipRepairRace`: the append-only membership log, the folds that read it, the rows and counter kept beside it,
  their repair, several instances maintaining them at once, and the repair tool at work beside them.
- `InfiniteLibrary`: the request protocol of the infinite scroll.
- `Idempotency`: the conditional put that gates an event consumer, alone and with many consumers.
- `FileShareBackfill`: the pointer and upload backfill, dry run against apply.
- `LeaderPicker`, `Leadership`, `LeaderSessions`: who may lead a group, in the form, on the server, and over runs of
  editing sessions.
- `TableColumns`, `ChartSegments`, `DomainList`, `EventCalendar`: column preferences, chart segments, the domain field
  and the calendar.

`Prelude` holds what they share. Objects whose methods change fields are classes whose methods are proved to do what a
specification function says; the lemmas are about those functions.

Where the code departs from what it promises, the model follows the code and the condition is stated:

- The stager's docstring says its cache is refreshed when the template declares more indexes than the cache. The code
  lets the definitions in the file win whenever the two differ. So printing a block that ends in a comment before
  another block changes the cached definitions on the next run (`CacheSurvivesExactlyWhenSafe`,
  `TrailingCommentMigrates`; `CommentMoves` gives a template); over all runs the definitions last exactly when the
  index section does not end in a comment (`CacheNeverChangesExactlyWhen`).
- A template staged down to no index gets its indexes back in place only under the condition of
  `RestagesExactlyWhenReinsertable`. `service-forums-data.yaml` does not meet it, because its stream line stands
  elsewhere, nor does `service-events-data.yaml`, which has further index sections; `IndexDoesNotReturn` gives a small
  template.
- `attribute_not_exists` makes an action at-most-once per lifetime of its record; a crash after the put loses it
  (`CrashLosesTheAction`, `CrashedClaimIsNeverRun`). Every recorded put is acted on exactly in the runs in which no
  consumer crashes with a claim in hand or misses the answer to its put (`ExactlyOncePerPutExactlyWhenNoLoss`). Two
  runs are a lifetime apart if and only if every consumer acts at the moment of its claim; in general they are apart
  by the lifetime less the longest delay, and by no more (`GapGuaranteedExactlyWhen`,
  `LifetimeApartExactlyWhenPrompt`).
- The counter is called exact because its put is conditional. The refresh that follows a failed condition is not
  conditional, and can leave a row the counter does not know (`LateRefreshDrifts`). The counter is exact over exactly
  the schedules in which no instance stops before its counter change and none deletes a row another is about to put
  again (`ExactThroughoutExactlyWhenNoRisk`).
- The repair tool sets the counter absolutely. On any table it leaves an exact counter if no instance disturbs it, and
  `OnCourseExactlyWhenUndisturbed` says which steps do: above all a counter change begun after the tool's reading and
  made before the counter is set (`JoinDuringRepairIsNotCounted`).
- The two sides of the membership log differ for a pair that ends in an event of an unknown kind
  (`UnknownKindSplitsTheSides`), and live rows differ from a replay after a leave that arrives late
  (`LateLeaveSplitsLiveAndReplay`).
- Editing a group does not clear the record of a leader it removes. The picker offers that person, the server refuses
  them (`SaveAcceptedExactlyWhen`, `RemovedLeaderIsOfferedButRefused`, `ReplacedLeaderIsRefused`). Creating a group
  stores it before an administrator among its leaders is refused (`CreateKeepsRecordedExactlyWhen`,
  `AdministratorBreaksCreate`), assigning likewise, and a user edit can move a group's last leader away although it
  guards against taking their role (`StepKeepsGroupsLedExactlyWhen`, `LastLeaderMovedAway`).
- The picker keeps everybody in one group exactly while its groups list names the leaders of every other group, and an
  unloaded list names none (`ListSufficesExactlyWhenItCovers`). The server checks known users only
  (`ServerAloneChecksKnownUsersOnly`); its operations keep everybody, known or not, in one group exactly unless one
  names an id without a record that another group lists (`StepKeepsOneGroupForAllExactlyWhen`).
- An event whose end is no date is placed on 400 days, because the running day is compared with itself
  (`UnparsableEndFillsGuard`).

## Model

| member | source | states |
|---|---|---|
| GsiBlocks.ParseIndexBlocks | infra/tools/stage_gsis.py:49-69 | the parsing loop builds the dictionary of the entries the specification scan finds, for every body |
| GsiBlocks.PopComments | infra/tools/stage_gsis.py:58-60 | the pop loop moves exactly the run of comments that ends the buffer, in order |
| GsiParserLaws.ParserSpecification | infra/tools/stage_gsis.py:40-69 | parsing is the one way to cut a body into a dropped prefix without index lines and one well-formed entry per index, comments going to the index below; both directions |
| GsiParserLaws.DeclaredNumbers | infra/tools/stage_gsis.py:53-64 | one entry per index line, in file order |
| GsiParserLaws.BlocksLookup | infra/tools/stage_gsis.py:55-68 | among entries with one number the last one decides |
| GsiParserLaws.PrintDeclares | infra/tools/stage_gsis.py:117-119 | a printed list declares exactly its indexes, in its order |
| GsiParserLaws.SafePrintParsesBack | infra/tools/stage_gsis.py:117-119 | a safe list, repetitions included, prints to a body that parses to the printed blocks |
| GsiParserLaws.PrintParseRoundTrip | infra/tools/stage_gsis.py:40-69 | for distinct indexes print-then-parse is the identity exactly when no block printed before another ends in a comment |
| GsiStager.Stager.LoadBlocksFromFiles | infra/tools/stage_gsis.py:72-90 | merging file over cache, writing the cache, and the two early exits |
| GsiStager.Stager.Stage | infra/tools/stage_gsis.py:93-133 | one run: unknown indexes leave the template alone, else attributes and index section are rewritten |
| GsiStagerLaws.SectionAt | infra/tools/stage_gsis.py:114-123 | the regular expression finds exactly the section at a known place and the substitution touches nothing else |
| GsiStagerLaws.InsertedOnlyAt | infra/tools/stage_gsis.py:124-128 | re-insertion puts the block before the tail only if the tail opens with the first stream marker |
| GsiRuns.RunStep | infra/tools/stage_gsis.py:93-133 | from any recoverable state one run shows exactly the requested list, or changes no template, and the cache is the original definitions |
| GsiRuns.NoDefinitionIsEverLost | infra/tools/stage_gsis.py:72-133 | over every sequence of runs the cache equals the original definitions and the file is the original with the last served list |
| GsiRuns.StagedTextDeclares | infra/tools/stage_gsis.py:10-14 | the staged file declares exactly the requested indexes in order |
| GsiRuns.FullListRestores | infra/tools/stage_gsis.py:10-13 | the full list restores the index section byte for byte in place; the whole file exactly when its attribute lines were the generated ones |
| GsiRuns.CacheSurvivesExactlyWhenSafe | infra/tools/stage_gsis.py:80-86 | the next run keeps the cached definitions exactly when the list was safe |
| GsiRuns.SafeForEveryList | infra/tools/stage_gsis.py:57-64 | a section that does not end in a comment is safe for every list |
| GsiRuns.TrailingCommentMigrates | infra/tools/stage_gsis.py:57-64 | a section that ends in a comment loses it to another index for a two-index list |
| GsiCounterexample.CommentMoves | infra/tools/stage_gsis.py:80-86 | a template, lexed from bytes, whose cached definitions change after staging its indexes in another order |
| GsiRuns.CacheNeverChangesExactlyWhen | infra/tools/stage_gsis.py:72-90 | over all sequences of runs for lists without repetitions a reinsertable template's definitions never change if and only if its section does not end in a comment |
| GsiRuns.RestagesExactlyWhenReinsertable | infra/tools/stage_gsis.py:122-128 | from no index at all, a later run restores the requested ones in place if and only if the template is reinsertable |
| GsiCounterexample.IndexDoesNotReturn | infra/tools/stage_gsis.py:124-128 | the same template, staged down to no index, does not get an index back in its place |
| GsiRuns.RunFollowsBytes | infra/tools/stage_gsis.py:107-128 | every line a run writes carries the true outcome of the tests on its bytes |
| GsiBytes.RunDeclaresKeys | infra/tools/stage_gsis.py:108-115 | on the bytes: a served run leaves an attribute section of the table's two keys and, for each kept index in order, its pk and sk line |
| GsiBytes.BlockGoesBeforeFirstMarker | infra/tools/stage_gsis.py:124-128 | on the bytes: the block goes right before the first stream marker of the file, wherever on its line, and nothing else changes |
| GsiBytes.OutcomeExactlyWhen | infra/tools/stage_gsis.py:72-105 | for every pair of files, when the tool gives up, how, and what it leaves untouched then |
| GsiBytes.IndexLineReads | infra/tools/stage_gsis.py:53-64 | a line naming index n opens index n, whatever follows the number |
| GsiBytes.CommentLineReads | infra/tools/stage_gsis.py:57-60 | a line whose first mark is a hash is a comment |
| MembershipLog.Derive | infra/tools/backfill_group_members.py:85-96 | the group-side fold, for every list of events |
| MembershipLog.CurrentGroups | infra/tools/live_forward_check.py:57-63 | the member-side fold, in the check's form and in the repository's |
| MembershipLaws.SortCorrect | infra/tools/backfill_group_members.py:88-88 | the sort orders by time and keeps the events |
| MembershipLaws.SelectSort | infra/tools/backfill_group_members.py:88-88 | the sort is stable: it commutes with selecting any pair's events |
| MembershipLaws.DerivedIsLatest | infra/tools/backfill_group_members.py:85-96 | a member is derived exactly when their latest known event is a start, with its time |
| MembershipLaws.MemberGroupsIsLatest | infra/tools/live_forward_check.py:60-63 | a group is in the set exactly when its latest counted event is a start |
| MembershipLaws.OrderIrrelevantExactlyWhenTopAgrees | infra/tools/backfill_group_members.py:88-95 | the outcome is the same for every order a query may return exactly when the events of the greatest time agree |
| MembershipLaws.SameTimeOrderDecides | infra/tools/backfill_group_members.py:88-95 | a start and an end of one time: the order of the query decides |
| MembershipLaws.GroupAndMemberSidesAgree | infra/tools/live_forward_check.py:57-63 | over one log the two sides agree exactly unless the pair ends in an unknown kind while its last known event is a start |
| MembershipLaws.UnknownKindSplitsTheSides | infra/tools/live_forward_check.py:60-63 | a start followed by an event of another kind: on for the group, off for the member |
| MembershipLaws.GroupAndRepositorySidesAgree | services/identity-access/src/repository.py:876-886 | the repository's member-side fold agrees with the group side without that exception |
| MembershipProjection.Table.AppendMembershipEvent | services/identity-access/src/repository.py:587-604 | appending logs the event and applies it to rows and counter |
| MembershipProjection.Table.PutGroupMember | services/identity-access/src/repository.py:607-631 | a new row moves the counter, a repeated one is refreshed without |
| MembershipProjection.Table.DeleteGroupMember | services/identity-access/src/repository.py:633-644 | only a present row is removed and counted |
| MembershipProjection.Table.RepairGroup | infra/tools/backfill_group_members.py:126-161 | one group's repair: rows to write, rows to remove, absolute counter |
| MembershipProjection.WriteRows | infra/tools/backfill_group_members.py:140-150 | the write loop puts one row per member in any order and leaves the others |
| MembershipProjection.Table.RunBackfill | infra/tools/backfill_group_members.py:126-161 | all groups in turn; a dry run writes nothing |
| MembershipProjectionLaws.DryRunWritesNothing | infra/tools/backfill_group_members.py:137-138 | a dry run over any groups leaves every table as it was |
| MembershipProjectionLaws.CounterNeverDrifts | services/identity-access/src/repository.py:607-644 | over every sequence of events, repeated, late or for non-members, the counter stays the number of rows |
| MembershipProjectionLaws.RowsFollowArrival | services/identity-access/src/repository.py:600-631 | a pair's row is a function of its known events in order of arrival |
| MembershipProjectionLaws.LiveRowsHaveSearchKeys | services/identity-access/src/repository.py:613-619 | over every sequence of events each row has the search key of its member's profile |
| MembershipProjectionLaws.RepeatedJoinRefreshesKey | services/identity-access/src/repository.py:625-629 | a repeated join brings the search key up to date |
| MembershipProjectionLaws.RepeatedJoinKeepsTime | services/identity-access/src/repository.py:627-628 | a repeated join without a time keeps the join time on record |
| MembershipProjectionLaws.LiveEqualsReplayExactlyWhen | services/identity-access/src/repository.py:11-19 | live row and replay agree exactly when the last arrived and the latest event have one status |
| MembershipProjectionLaws.LateLeaveSplitsLiveAndReplay | services/identity-access/src/repository.py:600-606 | a leave that arrives after a later join removes a row the replay keeps |
| MembershipProjectionLaws.InOrderLiveEqualsReplay | services/identity-access/src/repository.py:11-19 | with arrivals in time order the live row is the replayed one, join time included |
| MembershipProjectionLaws.ReplayStep | infra/tools/backfill_group_members.py:85-96 | one more event changes the derived map by one insertion, one removal or nothing |
| MembershipProjectionLaws.ReplayCountStep | infra/tools/live_forward_check.py:106-107 | so the number of members moves by one or not at all |
| MembershipProjectionLaws.JoinAddsOne | infra/tools/live_forward_check.py:106-107 | a join by a non-member adds exactly one |
| MembershipProjectionLaws.JoinThenLeaveRestores | infra/tools/live_forward_check.py:118-124 | the following leave restores the map |
| MembershipProjectionLaws.AppendAgreesExactlyWhen | services/identity-access/src/repository.py:587-604 | one more event keeps rows and log in agreement exactly when it is on time or does not change the status |
| MembershipProjectionLaws.RepairRestores | infra/tools/backfill_group_members.py:126-161 | from any table: rows are the derived members, counter their number, rows with a search key untouched, all else unchanged |
| MembershipProjectionLaws.SecondRunChangesNothing | infra/tools/backfill_group_members.py:18-20 | a second run over the same log leaves the table identical |
| MembershipProjectionLaws.RepairedThenMaintained | infra/tools/backfill_group_members.py:18-20 | after repair of any drifted table, on-time events keep rows, log and counter in agreement |
| MembershipRace.EveryRunBalances | services/identity-access/src/repository.py:607-670 | over every interleaving and stop, counter, outstanding, lost and resurrected changes account for every row |
| MembershipRace.ExactStepExactlyWhen | services/identity-access/src/repository.py:614-644 | from an exact counter a step keeps it exact unless it stops before its counter change or puts a deleted row again |
| MembershipRace.CounterExactWithoutRisk | services/identity-access/src/repository.py:609-612 | over every schedule without a risky step the counter is exact, and the number of rows whenever all are idle |
| MembershipRace.StaysExactExactlyWhenNotRisky | services/identity-access/src/repository.py:609-629 | from a sound state one step leaves the counter exact for good exactly when it is not risky |
| MembershipRace.ExactThroughoutExactlyWhenNoRisk | services/identity-access/src/repository.py:609-644 | the same for whole schedules, both directions |
| MembershipRace.LateRefreshDrifts | services/identity-access/src/repository.py:620-629 | a schedule without any stop after which the counter misses a row |
| MembershipRepairRace.MoveSpoils | infra/tools/backfill_group_members.py:140-161 | by how much each step of an instance or of the tool, at its guard, moves the drift the repair will end with |
| MembershipRepairRace.EveryRepairAccounts | infra/tools/backfill_group_members.py:126-161 | from any table and over every interleaving the drift is the sum of those |
| MembershipRepairRace.OnCourseExactlyWhenUndisturbed | infra/tools/backfill_group_members.py:126-161 | the repair stays on course to an exact counter exactly while no step disturbs it |
| MembershipRepairRace.RepairExactExactlyWhen | infra/tools/backfill_group_members.py:159-161 | a finished repair left an exact counter exactly when the disturbances cancel; undisturbed, the counter is the number of rows once all are idle |
| MembershipRepairRace.FinishedMeansWritten | infra/tools/backfill_group_members.py:128-157 | a finished repair has written every named member without a row or a search key and removed every other row, however instances interfere |
| MembershipRepairRace.AloneRestores | infra/tools/backfill_group_members.py:126-161 | alone it leaves exactly the named members' rows and their number, from any table |
| MembershipRepairRace.JoinDuringRepairIsNotCounted | infra/tools/backfill_group_members.py:159-161 | a join completed during the repair keeps its row and loses its counter change |
| InfiniteLibrary.Library.SetEndpoint | frontend/src/features/ContentLibraryPage.tsx:83-93 | a new endpoint resets and asks for its first page, none clears and invalidates |
| InfiniteLibrary.Library.RequestMore | frontend/src/features/ContentLibraryPage.tsx:95-101 | the guard and the request for the next page |
| InfiniteLibrary.Library.OnAnswer | frontend/src/features/ContentLibraryPage.tsx:62-80 | an answer is applied only to the latest request |
| InfiniteLibrary.Library.OnFailure | frontend/src/features/ContentLibraryPage.tsx:71-79 | a failure likewise |
| InfiniteLibrary.EveryRunIsConsistent | frontend/src/features/ContentLibraryPage.tsx:62-101 | in every reachable state a flag is set exactly while the latest request is under way, and the items are the first pages of the current endpoint |
| InfiniteLibrary.NoSpinnerSticks | frontend/src/features/ContentLibraryPage.tsx:74-78 | nothing under way, no spinner; any answer to the latest request clears both |
| InfiniteLibrary.SupersededChangesNothing | frontend/src/features/ContentLibraryPage.tsx:58-66 | a superseded answer changes no shown state |
| InfiniteLibrary.AnswersCommute | frontend/src/features/ContentLibraryPage.tsx:58-66 | answers to different requests can arrive in either order |
| InfiniteLibrary.ExhaustedShowsAllPages | frontend/src/features/ContentLibraryPage.tsx:47-50 | two finished searches of one endpoint show the same complete list |
| InfiniteLibrary.StaleItemsUntilFirstPage | frontend/src/features/ContentLibraryPage.tsx:90-92 | until its first page arrives, or if that fails, a new endpoint shows the old items and cannot load more |
| InfiniteLibrary.SearchShowsFirstPage | frontend/src/features/ContentLibraryPage.tsx:83-93 | a new endpoint sends one request, whose answer shows the first page, whatever was on show or pending |
| InfiniteLibrary.LoadMoreIgnoredExactlyWhen | frontend/src/features/ContentLibraryPage.tsx:95-96 | loading more does nothing exactly without a further page or with a request pending |
| InfiniteLibrary.LoadMoreAsks | frontend/src/features/ContentLibraryPage.tsx:97-100 | otherwise it sends the request for the cursor after the pages on show, under a new number, and sets its flag |
| InfiniteLibrary.NextPageLoads | frontend/src/features/ContentLibraryPage.tsx:62-101 | an idle state showing k pages shows k + 1 after loading more and the answer |
| InfiniteLibrary.SameEndpointAsksNothing | frontend/src/features/ContentLibraryPage.tsx:83-93 | an unchanged endpoint sends no request |
| InfiniteLibrary.FailedPageCanBeRetried | frontend/src/features/ContentLibraryPage.tsx:71-79 | a failed page is reported, keeps the pages on show and is asked for again at the same cursor |
| InfiniteLibrary.ClearedStaysEmpty | frontend/src/features/ContentLibraryPage.tsx:84-89 | a cleared search is empty and stays so whatever answers |
| InfiniteLibrary.EveryPageCanBeLoaded | frontend/src/features/ContentLibraryPage.tsx:95-101 | from every idle state every page the endpoint has can be brought on show |
| InfiniteLibrary.EverySearchCanBeExhausted | frontend/src/features/ContentLibraryPage.tsx:62-101 | from every reachable state a search whose cursors end can be driven to its last page, all pages shown in order |
| Idempotency.IdempotencyStore.Seen | platform/reference/idempotency.py:24-36 | records a new id, reports a recorded one |
| Idempotency.IdempotencyStore.RunOnce | platform/reference/idempotency.py:38-43 | runs the action exactly when the id was not recorded |
| Idempotency.IdempotencyStore.Consume | platform/reference/idempotency.py:38-43 | any delivery sequence equals the action once per new id in first-delivery order |
| Idempotency.FlagsMarkFirstDeliveries | platform/reference/idempotency.py:39-43 | true is returned exactly for the first delivery of an id not recorded |
| Idempotency.FirstDeliveriesAreDistinct | platform/reference/idempotency.py:39-43 | those ids are distinct and are exactly the delivered ones not recorded |
| Idempotency.EveryRunIsConsistent | platform/reference/idempotency.py:24-43 | under any interleaving claims are used once, spaced by the lifetime and accounted for by expiries |
| Idempotency.AtMostOncePerLifetime | platform/reference/idempotency.py:5-6 | the action of an id runs at most once plus once per expiry |
| Idempotency.RunsSpacedByLifetimeLessDelay | platform/reference/idempotency.py:15-30 | two runs are at least the lifetime apart less the first one's delay |
| Idempotency.SlowConsumerBringsRunsTogether | platform/reference/idempotency.py:38-43 | for every delay up to the lifetime, a run whose two actions are apart by exactly the rest of the lifetime |
| Idempotency.GapGuaranteedExactlyWhen | platform/reference/idempotency.py:24-43 | over all runs a gap between two actions of an id is guaranteed exactly when delay and gap fit into the lifetime |
| Idempotency.LifetimeApartExactlyWhenPrompt | platform/reference/idempotency.py:15-30 | two runs are always a lifetime apart if and only if no consumer waits after its claim |
| Idempotency.CrashedClaimIsNeverRun | platform/reference/idempotency.py:40-43 | a recorded id nobody holds is never run until its record expires |
| Idempotency.CrashLosesTheAction | platform/reference/idempotency.py:40-43 | a run that loses an action: a crash between put and action |
| Idempotency.StepKeepsClaimsExactlyWhen | platform/reference/idempotency.py:27-43 | one step keeps every recorded put acted on or in hand exactly unless a consumer crashes holding one or misses the answer |
| Idempotency.EveryPutKeptExactlyWhenNoLoss | platform/reference/idempotency.py:27-43 | the same over every run, both directions |
| Idempotency.ExactlyOncePerPutExactlyWhenNoLoss | platform/reference/idempotency.py:24-43 | with all consumers free, every id's action ran exactly once per recorded put if and only if nothing was lost |
| FileShareBackfill.Backfill.Run | infra/tools/backfill_file_share_state.py:79-137 | the slot loop, the folder registry, the counters and the exit code |
| FileShareBackfill.BucketObjects | infra/tools/backfill_file_share_state.py:49-64 | the listing reads up to the first page that ends it |
| FileShareBackfill.ListedUpToTheEnd | infra/tools/backfill_file_share_state.py:49-64 | the objects listed are those of the pages up to the first that is not truncated or has no token, and no others |
| FileShareBackfill.PointersNameFirstSlots | infra/tools/backfill_file_share_state.py:94-99 | earlier pointers stay, every other key gets the first well-formed slot in scan order, no other key gets one |
| FileShareBackfill.EverySlotHasPointer | infra/tools/backfill_file_share_state.py:94-99 | every well-formed slot's key has a pointer after an apply run |
| FileShareBackfill.ConflictsAreUnnamedSlots | infra/tools/backfill_file_share_state.py:100-103 | the conflicts are exactly the well-formed slots their key's final pointer does not name |
| FileShareBackfill.PointersReportedAreAdded | infra/tools/backfill_file_share_state.py:95-99 | the pointers reported are the ones added |
| FileShareBackfill.StampedIds | infra/tools/backfill_file_share_state.py:105-119 | exactly the well-formed slots with a file and no upload mark are stamped |
| FileShareBackfill.UploadsReported | infra/tools/backfill_file_share_state.py:105-108 | either kind of run reports as many uploads as there are well-formed slots with a file in the bucket and no mark |
| FileShareBackfill.FoldersRegistered | infra/tools/backfill_file_share_state.py:121-133 | the registry gains exactly the folders of well-formed slots and the top levels of the bucket's keys, never an empty one |
| FileShareBackfill.TopLevelBeforeSlash | infra/tools/backfill_file_share_state.py:122-122 | the top level is what stands before the first slash |
| FileShareBackfill.KeyWithoutStoredKey | infra/tools/backfill_file_share_state.py:88-91 | a slot without a stored key has one made of folder and file name, and only a missing id makes it malformed |
| FileShareBackfill.KeyWithStoredKey | infra/tools/backfill_file_share_state.py:88-91 | a stored key is used as it is, and needs a slash |
| FileShareBackfill.DryRunWritesNothing | infra/tools/backfill_file_share_state.py:98-133 | a dry run writes no pointer, mark or folder |
| FileShareBackfill.SecondRunWritesNothing | infra/tools/backfill_file_share_state.py:18-19 | a second apply run writes nothing and reports the same conflicts and folders |
| FileShareBackfill.DryRunAgainstApply | infra/tools/backfill_file_share_state.py:94-109 | by how much a dry run's pointers and conflicts differ from an apply run's |
| FileShareBackfill.DryRunTotalsAgreeExactlyWhen | infra/tools/backfill_file_share_state.py:94-103 | pointers plus conflicts agree exactly when no slot repeats the first id of its key, as with distinct ids |
| FileShareBackfill.RepeatedSlotCountsTwice | infra/tools/backfill_file_share_state.py:94-103 | one slot scanned twice makes them differ |
| LeaderPicker.ListedHowOften | frontend/src/components/leaderPicker.ts:59-86 | who is listed and how often: current leaders always, leaders of other groups never |
| LeaderPicker.LeadersComeFirst | frontend/src/components/leaderPicker.ts:79-85 | the group's leaders stand first in their order, with or without a search |
| LeaderPicker.HitsKeepTheirOrder | frontend/src/components/leaderPicker.ts:82-85 | what a search adds stands behind them in the search's order |
| LeaderPicker.GroupForm.ToggleLeader | frontend/src/components/GroupModal.tsx:110-111 | one tick of a shown candidate |
| LeaderPicker.ToggleTwice | frontend/src/components/GroupModal.tsx:110-111 | ticking twice restores who is selected |
| LeaderPicker.ToggleKeepsOrder | frontend/src/components/GroupModal.tsx:110-111 | a tick moves nobody else and adds at the end |
| LeaderPicker.SelectedByParity | frontend/src/components/GroupModal.tsx:46-111 | after any ticks someone is selected exactly when leading the group before and being ticked an odd number of times differ |
| LeaderPicker.SessionsSelectEligibleLeaders | frontend/src/components/GroupModal.tsx:92-111 | whatever was searched and ticked, nobody selected leads another listed group and nobody is selected twice |
| LeaderPicker.SelectedAreCurrentOrFree | frontend/src/components/GroupModal.tsx:92-111 | whoever is saved led the group before, or was found by a search and leads no other listed group; nobody twice |
| LeaderSessions.EveryRunOfSessionsIsWellLed | frontend/src/components/GroupModal.tsx:101-128 | over every run of create and edit sessions, whatever is searched and ticked and for every id: no one leads two groups, every group keeps a leader |
| LeaderSessions.SaveStoresExactlyWhen | frontend/src/components/GroupModal.tsx:113-188 | a save stores who is ticked, for that group only, exactly with a name that is not blank and somebody ticked |
| LeaderSessions.SaveWithoutTicksChangesNothing | frontend/src/components/GroupModal.tsx:46-46 | opening a group and saving it changes nothing |
| LeaderSessions.ListSufficesExactlyWhenItCovers | frontend/src/components/leaderPicker.ts:66-77 | a groups list guarantees that for a session exactly when it names every other group's leaders |
| LeaderSessions.CurrentLeadersListedOnce | frontend/src/components/leaderPicker.ts:79-85 | every current leader is listed exactly once in the group's form |
| LeaderSessions.ServerStoresOrRefuses | services/identity-access/src/group_service.py:107-149 | the server's groups follow the form's, save by save, or stay as they are |
| LeaderSessions.WindowNamesNoAdministrator | frontend/src/components/leaderPicker.ts:36-41 | the role filter of the search discharges what the server's creation relies on |
| LeaderSessions.EveryRunOnTheServerIsSound | services/identity-access/src/group_service.py:107-149 | over every run of sessions against the server, refusals and half-way stops included: no id in two groups, every group led, every known leader's record right |
| LeaderSessions.SaveAcceptedExactlyWhen | services/identity-access/src/group_service.py:778-801 | a save is accepted exactly when the group has not been deleted and nobody ticked has a stale record naming another group or is an administrator |
| LeaderSessions.AcceptedSaveIsStored | services/identity-access/src/group_service.py:107-149 | an accepted save is stored as ticked, other groups as before, and everybody in it is on record for the group |
| LeaderSessions.ServerAloneChecksKnownUsersOnly | services/identity-access/src/group_service.py:778-783 | without the form one id without a record can lead two groups |
| Leadership.GroupService.ValidateLeadersAvailable | services/identity-access/src/group_service.py:778-783 | accepts exactly when no known user among them has another group on record |
| Leadership.GroupService.PromoteLeaders | services/identity-access/src/group_service.py:785-801 | promotes in order and stops at the first administrator |
| Leadership.PromoteEffect | services/identity-access/src/group_service.py:785-801 | who changes and how; accepted exactly when no known administrator is listed |
| Leadership.PromotesUpToAdministrator | services/identity-access/src/group_service.py:785-801 | exactly the known ids before the first administrator become leaders of the group; accepted exactly without one |
| Leadership.GroupService.CreateNew | services/identity-access/src/group_service.py:107-129 | stores the group, then promotes |
| Leadership.GroupService.EditLeaders | services/identity-access/src/group_service.py:132-149 | promotes, then stores the group |
| Leadership.GroupService.AssignOne | services/identity-access/src/group_service.py:477-490 | adds one leader |
| Leadership.GroupService.ReleaseLeadership | services/identity-access/src/user_service.py:281-292 | removes a leader from a group and clears the record |
| Leadership.GroupService.ReassignTo | services/identity-access/src/user_service.py:261-279 | releases the former group and joins the new one |
| Leadership.GroupService.Change | services/identity-access/src/user_service.py:147-244 | editing a user: the checks, the move or release, the role written last |
| Leadership.CreateEffect | services/identity-access/src/group_service.py:107-129 | when a creation is accepted and its whole effect on groups and records |
| Leadership.EditEffect | services/identity-access/src/group_service.py:132-149 | the same for an edit; a refused one leaves every group as it was |
| Leadership.AssignEffect | services/identity-access/src/group_service.py:477-485 | the same for an assignment, which keeps the leaders there are and adds one behind them |
| Leadership.ReleaseEffect | services/identity-access/src/user_service.py:281-292 | who is listed and on record where after a release |
| Leadership.ReassignEffect | services/identity-access/src/user_service.py:261-279 | the same for a reassignment, accepted exactly when the group exists |
| Leadership.EditUserEffect | services/identity-access/src/user_service.py:147-244 | an accepted edit gives the user the role asked for and the group asked for, none, or the one on record; nobody else changes, a refused check changes nothing |
| Leadership.EditUserAcceptedExactlyWhen | services/identity-access/src/user_service.py:149-176 | every condition under which a user edit is accepted, in terms of the request and the stored records |
| Leadership.RefusedEditHasReleased | services/identity-access/src/user_service.py:231-279 | an edit refused because a group does not exist has already released the group led before, and keeps the role |
| Leadership.LeavingRoleLeavesGroup | services/identity-access/src/user_service.py:235-242 | who steps down as a group leader is no longer listed, and the group keeps a leader |
| Leadership.DeleteThenRestore | services/identity-access/src/group_service.py:157-196 | a deleted group is off the list with its leaders kept, and restoring brings it back as it was |
| Leadership.EditKeepsRecorded | services/identity-access/src/group_service.py:142-149 | editing keeps every listed known user's record right, even when it stops half-way |
| Leadership.CreateKeepsRecordedExactlyWhen | services/identity-access/src/group_service.py:109-124 | creating does so exactly when refused outright or without an administrator |
| Leadership.AdministratorBreaksCreate | services/identity-access/src/group_service.py:109-124 | an administrator in a new group is the failing case |
| Leadership.AssignKeepsRecordedExactlyWhen | services/identity-access/src/group_service.py:477-485 | assigning does so exactly unless an administrator without that record is assigned |
| Leadership.AdministratorBreaksAssign | services/identity-access/src/group_service.py:477-485 | the failing case for assigning |
| Leadership.ReassignKeepsRecorded | services/identity-access/src/user_service.py:261-279 | a reassigned known user leads only the new group |
| Leadership.EditUserKeepsRecorded | services/identity-access/src/user_service.py:147-244 | editing a user keeps every record right, failures half-way included |
| Leadership.AdministratorsAreKnown | services/identity-access/src/user_service.py:147-217 | over every run only a user edit makes an administrator |
| Leadership.NobodyLeadsTwoGroups | services/identity-access/src/group_service.py:778-783 | over every run of operations, user edits included, no known user leads two groups, deleted ones included, if no one is named for a group who is an administrator at the start or made one |
| Leadership.StepKeepsOneGroupForAllExactlyWhen | services/identity-access/src/group_service.py:778-783 | of all operations exactly those that store an id without a record which another group lists put somebody, known or not, into two groups |
| Leadership.OneGroupThroughoutExactlyWhen | services/identity-access/src/group_service.py:778-783 | the same over every run of operations |
| Leadership.ReassignKeepsGroupsLedExactlyWhen | services/identity-access/src/user_service.py:261-292 | a reassignment leaves a group without a leader exactly when its last leader moves away |
| Leadership.LastLeaderMovedAway | services/identity-access/src/user_service.py:193-199 | a user edit that moves the only leader of a group |
| Leadership.StepKeepsGroupsLedExactlyWhen | services/identity-access/src/user_service.py:174-242 | of all operations exactly the move of a group's last leader leaves a group without one; the guarded role change does not |
| Leadership.OfferedIsAcceptedExactlyWhen | frontend/src/components/leaderPicker.ts:43-86 | someone offered is accepted by the server exactly when no stale record names another group |
| Leadership.RemovedLeaderIsOfferedButRefused | services/identity-access/src/group_service.py:142-149 | a leader removed by an edit is offered for a new group and refused |
| Leadership.ReplacedLeaderIsRefused | services/identity-access/src/group_service.py:142-149 | the smallest such case |
| TableColumns.Table.OnMove | frontend/src/components/ColumnSettings.tsx:40-49 | the two splices and what is stored |
| TableColumns.Table.OnToggle | frontend/src/components/DataTable.tsx:135-136 | hiding and showing a column |
| TableColumns.Table.OnReset | frontend/src/components/DataTable.tsx:185-185 | resetting order and visibility |
| TableColumns.MoveKeepsTheRest | frontend/src/components/ColumnSettings.tsx:40-49 | the moved column takes the other's place, the rest keep their order |
| TableColumns.MoveBackRestores | frontend/src/components/ColumnSettings.tsx:40-49 | the reverse move restores the order |
| TableColumns.NudgeBackRestores | frontend/src/components/ColumnSettings.tsx:51-56 | an arrow key and its opposite restore the order |
| TableColumns.OrderShowsEveryColumn | frontend/src/components/DataTable.tsx:105-110 | the reconciled order shows the current columns, each once exactly when the stored order repeats none of them |
| TableColumns.StoredOrderIsShown | frontend/src/components/DataTable.tsx:183-185 | what the panel stores is what is shown next |
| TableColumns.ShownOrder | frontend/src/components/DataTable.tsx:105-110 | of any two columns, which stands first: stored columns in stored order, columns added since behind them in the table's order |
| TableColumns.VisibleExactly | frontend/src/components/DataTable.tsx:111-111 | visible are the columns not hidden, in the order shown |
| TableColumns.DragShowsColumnThere | frontend/src/components/ColumnSettings.tsx:40-49 | after a drag the column is shown where the other was, the rest in their order, nothing hidden by it |
| TableColumns.ArrowSwapsNeighbours | frontend/src/components/ColumnSettings.tsx:51-103 | an arrow key swaps neighbours in its direction and does nothing at the end |
| TableColumns.SwitchShowsOrHides | frontend/src/components/ColumnSettings.tsx:84-122 | a switch shows a hidden column and hides a visible one unless it is the only one; all else is shown as before |
| TableColumns.ResetShowsDefaults | frontend/src/components/DataTable.tsx:185-185 | a reset shows the table's order and hides exactly the default hidden columns |
| TableColumns.ResetIsUsableExactlyWhen | frontend/src/components/DataTable.tsx:185-185 | a reset shows something exactly when some column is not hidden by default |
| TableColumns.PanelKeepsTableUsable | frontend/src/components/ColumnSettings.tsx:37-131 | over any use of the panel the order stays a permutation of the columns and one stays visible |
| ChartSegments.Segments | frontend/src/components/charts.tsx:42-51 | non-empty runs of consecutive indices that join to the measured points, with a gap between neighbours |
| ChartSegments.MeasuredExactly | frontend/src/components/charts.tsx:42-51 | the points are exactly the measured values at their indices, by increasing index |
| ChartSegments.SegmentationIsUnique | frontend/src/components/charts.tsx:40-51 | that description fixes the result |
| DomainList.RoundTripExactlyWhenClean | frontend/src/lib/domains.ts:12-21 | a list survives joining and parsing exactly when every entry is trimmed, non-empty and comma-free |
| DomainList.ParseIsClean | frontend/src/lib/domains.ts:13-15 | parsing produces only such entries |
| DomainList.CommitIsStable | frontend/src/lib/domains.ts:12-21 | parse after join after parse equals parse on every text |
| DomainList.ParseByCommas | frontend/src/lib/domains.ts:13-15 | a text is parsed piece by piece between commas, each piece giving its trimmed text or nothing if blank |
| DomainList.TrimCutsSpace | frontend/src/lib/domains.ts:14-14 | trimming cuts white space off both ends and nothing else |
| DomainList.JoinSeparates | frontend/src/lib/domains.ts:18-21 | joining puts a comma and a blank between neighbours and nothing else |
| DomainList.FieldFollowsTyping | frontend/src/lib/domains.ts:28-30 | the field shows what is typed while it is edited, and committing it settles it |
| EventCalendar.ByDay | frontend/src/features/EventCalendarPage.tsx:66-85 | every day holds exactly the events covering it, in list order |
| EventCalendar.Place | frontend/src/features/EventCalendarPage.tsx:69-82 | one event is appended to each of its days and to no other |
| EventCalendar.PlacedOncePerCoveredDay | frontend/src/features/EventCalendarPage.tsx:63-65 | each event stands once on each covered day |
| EventCalendar.DayKeepsListOrder | frontend/src/features/EventCalendarPage.tsx:66-82 | a day's events stand in the order of the list |
| EventCalendar.DegenerateEvents | frontend/src/features/EventCalendarPage.tsx:69-77 | without an end only the start day, with an end before the start or without a start no day |
| EventCalendar.WholeSpanPlacedExactlyWhen | frontend/src/features/EventCalendarPage.tsx:77-82 | the guard cuts nothing exactly for spans shorter than it, which includes every span within the form's cap |
| EventCalendar.UnparsableEndFillsGuard | frontend/src/features/EventCalendarPage.tsx:74-82 | an end that is no date fills the guard |
| EventCalendar.GridShowsMonthOnce | frontend/src/features/EventCalendarPage.tsx:87-95 | the 42 cells start on a Sunday and show every day of the month once |
| EventCalendar.GridIsConsecutive | frontend/src/features/EventCalendarPage.tsx:87-95 | the cells are consecutive days with the first of the month in the first row |

## Left out

- Storage, network, clocks and rendering: tables are maps, paged queries are sequences of pages without their continuation keys, a conditional put is one atomic step, time is a parameter.
- Stager: a file whose last line has no line feed, line separators other than a line feed, and backslashes in blocks, which the substitution would interpret; the printed messages; a JSON cache file and an absent one count as the same empty cache.
- Membership log: timestamps are natural numbers in the order of their strings, 0 for a missing one; the sort key under which an event is stored is not part of the model. The live check's `member_groups` reads one page of its query, so the agreement is stated for a query that returned every event of the member.
- Membership rows: attributes other than the join time and the search key; a row's member id and its sort key are taken to match.
- Membership races: one group; what a row holds apart from being there. The tool reads the group's rows in one step, and the log it has read before may be any.
- Infinite scroll: handlers see committed state, and the server's page for an endpoint and cursor does not change while the endpoint stays the same.
- Idempotency: one clock for all consumers, in whole seconds.
- File share: the size and time stored with an upload mark, and slots whose id differs from their partition key.
- Leadership: creation and deletion of users, a user's other fields, audit records and published events; whether another active community leader remains and whether the groups a member is to join exist are parameters of a user edit.
- LeaderSessions.EveryRunOnTheServerIsSound: the search index shows the stored roles, and the groups list of each session is loaded and current.
- Table columns: sorting, rows per page and the stored text of the preferences.
- Calendar: time of day, time zones and daylight saving; the week view; fetching.
- Totals and colours of the tier chart, chart scaling, `gen_api_edge.py`, the `verify_*` scripts and the seed handlers: each is decided by one branch or is literal text.
