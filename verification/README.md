# X-Agent: verified models of the sync engine and five smaller state machines

The main subject is the cloud sync service: clients submit operations stamped with vector clocks, the
service stores an operation or records a conflict, keeps a clock for each client and grows a graph of
version snapshots; conflicts are resolved by last-writer-wins, by a recursive merge of the payloads, or
by hand. Around it stand five smaller machines: the sliding-window rate limiter of the backend, the
request/response correlator and the store of the browser extension, the gradual rollout script, and
key rotation with hybrid envelopes.

| file | what it holds |
|---|---|
| `OrderedDict.dfy`, `Wrappers.dfy`, `Numerals.dfy` | dictionaries that remember insertion order; options and selections; decimal numerals |
| `VectorClocks.dfy` | clocks, their order and their merge |
| `DeepMerge.dfy` | nested documents, the merge, and what it means path by path |
| `Conflicts.dfy` | operations, the detector, the resolution strategies |
| `SyncModel.dfy` | every call of the service as a step between states; runs of calls |
| `SyncProperties.dfy` | what holds in every reachable state |
| `Calls.dfy` | what each call leaves behind, entry by entry |
| `Failures.dfy` | runs from a new service on which it fails |
| `VersionGraph.dfy` | versions as a tree, as a chain, and the history listing |
| `Convergence.dfy` | batches of operations in any order |
| `SyncServices.dfy` | the service as an object, each method proved to take its step |
| `RateLimiter.dfy`, `McpClients.dfy`, `Rollouts.dfy`, `Storage.dfy`, `KeyRotation.dfy` | the smaller machines |

The classes follow the programs' own in-place updates; each method is proved against a function on
plain values, and the theorems about whole runs are lemmas about those functions. Random identifiers
and generated keys, the current time, and the answers of the network are arguments. Where a statement
needs a generated identifier to be new (`FreshRun`, `NewOperationIds`) it says so.

Where the code does something else than its comments or names suggest, the model follows the code:

- Equal clocks count as concurrent, so a stored update that is sent again is rejected against itself,
  and a version can be restored only while its entity has no update or delete with an all-zero clock. A
  completed restore stores one, so the next restore of the entity fails, unless meanwhile a client's
  operation is stored under the very id of the restoring one and so overwrites it.
- A rejected operation is not stored by the call that rejects it. Resolving by last-writer-wins therefore
  fails when that operation is the winner and nothing has been stored under its id since; the conflict
  has been marked resolved by then.
- "CRDT" resolution depends on the order of the operations unless their payloads are compatible; the
  exact condition is proved, for the pair, for the grouping of three, and for the whole strategy.
- Merging reads an entry the receiver lacks as zero, but keeps the receiver's own negative ones: it commutes
  exactly when neither clock has a negative entry that the other lacks.
- `addToHistory` reads at most a hundred entries back, so the history holds at most 101 entries after
  it, whatever the settings say about a thousand.
- Rotating the same key twice overwrites the private key made by the first rotation; what was
  encrypted under it in between can no longer be opened.
- The rate limiter forgets an admission once any request on its key finds it sixty seconds old. Should the
  clock then step back, the admission can be recent again and is not counted: the limiter differs from
  one that forgets nothing exactly on those requests that find the limit reached only when the forgotten
  recent admissions are counted too, and it admits them. Without steps back there are none.

## Model

| member | source | states |
|---|---|---|
| VectorClocks.VectorClock.Increment | cloud/sync_service.py:31-33 | one client's entry rises by one, counted from zero when missing; no other entry moves |
| VectorClocks.VectorClock.Merge | cloud/sync_service.py:35-38 | in whatever order the other clock's items come, the result is the entry-wise maximum on its entries, with missing ones read as zero |
| VectorClocks.HappensBeforeIsStrictlyBelow | cloud/sync_service.py:40-53 | the test over the two key sets decides, for all possible clients at once, that no entry is greater and some entry differs |
| VectorClocks.HappensBeforeIsStrictOrder | cloud/sync_service.py:40-53 | irreflexive, asymmetric, transitive, and blind to explicit zero entries |
| VectorClocks.EqualClocksAreConcurrent | cloud/sync_service.py:55-57 | concurrent exactly when entry-wise equal or incomparable |
| VectorClocks.JoinIsLeastUpperBound | cloud/sync_service.py:35-38 | merging never exceeds a common bound; it is itself a bound, hence the least one, exactly when the receiver has no negative entry the other lacks |
| VectorClocks.JoinCommutesExactly | cloud/sync_service.py:35-38 | merging commutes as a map exactly when neither clock has a negative entry the other lacks |
| DeepMerge.MergeDicts | cloud/sync_service.py:211-221 | the recursive copy-and-fill loop terminates and gives the same document in every order of the second dictionary's items |
| DeepMerge.MergeShape | cloud/sync_service.py:211-221 | at every path: what the second document has there; nothing, if the second has a leaf above; else what the first has |
| DeepMerge.MergeLeaves | cloud/sync_service.py:211-221 | a leaf is in the result exactly when the second has it, or the first has it and the second has neither a value there nor a non-dictionary above |
| DeepMerge.Extensionality | cloud/sync_service.py:211-221 | documents alike at every path are equal, so the path law fixes the merge |
| DeepMerge.MergeLaws | cloud/sync_service.py:211-221 | the empty document is neutral on both sides; merging a document with itself, or merging the second in again, changes nothing |
| DeepMerge.MergeCommutesExactly | cloud/sync_service.py:211-221 | both orders agree exactly when the two documents hold, at every shared key, the same leaf or compatible dictionaries |
| DeepMerge.MergeAssociatesExactly | cloud/sync_service.py:215-219 | both groupings of three agree exactly when no leaf of the second sits on a dictionary of the third and above something only the first has |
| DeepMerge.LastPayloadWins | cloud/sync_service.py:196-208 | everything the last payload says is in the merged data |
| DeepMerge.MergeAllIsUnion | cloud/sync_service.py:196-208 | merged compatible payloads say at a path exactly what some payload says there |
| DeepMerge.MergeAllIgnoresOrder | cloud/sync_service.py:196-208 | compatible payloads merge to one document in any order and with any repetition |
| Conflicts.DetectConflict | cloud/sync_service.py:144-184 | the loop over existing operations returns the record specified by `Detect` |
| Conflicts.DetectorIsExact | cloud/sync_service.py:144-184 | a record is made exactly when some existing operation on the entity is concurrent and the pair is update/update or update/delete; it lists the new operation, then exactly those, in their order, with the type of the first |
| Conflicts.StringLessIsTotalOrder | cloud/sync_service.py:193 | comparing ids is a strict total order |
| Conflicts.EarlierIsTotalOrder | cloud/sync_service.py:193 | so is comparing (timestamp, id), up to operations that share both |
| Conflicts.WinnerIsLatest | cloud/sync_service.py:191-193 | no operation is later than the winner, and all before it in the list are earlier |
| Conflicts.WinnerIgnoresOrder | cloud/sync_service.py:191-193 | operations with different ids have one winner in every arrangement |
| Conflicts.ResolveCrdt | cloud/sync_service.py:196-208 | the fold over a conflict's operations merges exactly the payloads of its updates, in order |
| Conflicts.PayloadsOfUpdates | cloud/sync_service.py:201-206 | the payloads merged are exactly those of the updates, in the order of the operations |
| Conflicts.CrdtIgnoresOrderExactly | cloud/sync_service.py:196-208 | the strategy gives one result for all permutations of the operations exactly when the update payloads are pairwise compatible |
| Conflicts.EndingWith | cloud/sync_service.py:196-208 | any update of the conflict can be given the last word at a path by reordering the operations |
| OrderedDict.PutAppends | cloud/sync_service.py:312 | an operation stored under a new id comes last when the table is walked |
| OrderedDict.ValuesOfTable | cloud/sync_service.py:292-296 | walking a table meets every key once, in order of arrival, with its value |
| SyncModel.OpsOnPicks | cloud/sync_service.py:292-296 | the operations compared against are exactly the stored ones of the same type and id of entity, in their order |
| SyncModel.VersionsOfPicks | cloud/sync_service.py:452-455 | the versions considered are exactly those with the entity's id, whatever its type, in order of creation |
| SyncModel.StepIsEffect | cloud/sync_service.py:279-424 | every call, whether it returns or raises, stores one undisputed operation, records one conflict, closes one, adds one client, or does nothing |
| SyncServices.SyncService.constructor | cloud/sync_service.py:271-277 | a new service is in the initial state of all runs |
| SyncServices.SyncService.SubmitOperation | cloud/sync_service.py:279-327 | without a clash the operation is stored, its clock merged for its client and a snapshot added; with one, a conflict is recorded and nothing else changes |
| SyncServices.SyncService.ApplyOperation | cloud/sync_service.py:311-318 | an accepted operation is stored, its clock merged for its client, and a snapshot added |
| SyncServices.SyncService.ResolveConflict | cloud/sync_service.py:329-367 | an unknown conflict or a refused strategy changes nothing; otherwise the conflict is marked resolved with the strategy's result, and stays so when the winner is then not found |
| SyncServices.SyncService.RestoreVersion | cloud/sync_service.py:382-416 | an unknown version changes nothing; otherwise its data is submitted under an empty clock, and a clash leaves its conflict behind and raises |
| SyncServices.SyncService.GetSyncStatus | cloud/sync_service.py:418-424 | returns the client's state, creating an empty one for an unknown client and changing nothing else |
| SyncServices.SyncService.GetVersionHistory | cloud/sync_service.py:369-380 | returns each version of the entity as often as it is stored, newest first, and those of one timestamp in order of creation |
| VersionGraph.HistoryIsDetermined | cloud/sync_service.py:377-378 | only one listing is newest first and keeps the order at every timestamp |
| SyncServices.SyncService.GetSyncStatistics | cloud/sync_service.py:426-446 | counts of stored operations, conflicts, resolved and pending ones, the last two adding up and each matching its status, and the success rate drawn from them |
| SyncServices.SuccessRateIsPercentageExactly | cloud/sync_service.py:435-436 | the success rate lies between zero and a hundred exactly when conflicts do not outnumber stored operations, and is a hundred exactly when there are operations and no conflicts |
| SyncServices.SuccessRateInNumbers | cloud/sync_service.py:435-436 | the rate times the stored operations, or one where there are none, is a hundred times the operations less the conflicts |
| SyncServices.CountsByStatus | cloud/sync_service.py:431-443 | conflicts less resolved ones are the pending ones |
| SyncServices.SyncService.CreateVersionSnapshot | cloud/sync_service.py:448-477 | adds one version whose parent is the entity's newest so far |
| SyncServices.SyncService.UpdateSyncState | cloud/sync_service.py:479-492 | one client's clock becomes its merge with the given one; no other client changes |
| SyncProperties.AcceptedWhenUndisputed | cloud/sync_service.py:292-312 | an operation is accepted exactly when no stored operation clashes with it |
| SyncProperties.RunIsClashFree | cloud/sync_service.py:279-327 | in every reachable state no two stored operations clash |
| SyncProperties.CausalChain | cloud/sync_service.py:292-312 | in every reachable state a stored update and any other stored update or delete of its entity are ordered by happens-before in exactly one direction |
| SyncProperties.LatestUpdate | cloud/sync_service.py:292-312 | an entity with a stored update has exactly one that all its others happen before |
| SyncProperties.ResubmissionConflicts | cloud/sync_service.py:298-309 | a stored update sent again conflicts with itself |
| SyncProperties.JoinOntoIsMaximum | cloud/sync_service.py:479-492 | repeated merging yields the entry-wise maximum, with entries for exactly the clients named |
| SyncProperties.RunKeepsJoins | cloud/sync_service.py:314-315 | in every reachable state each client's clock is the merge of the clocks of all operations applied for it |
| SyncProperties.ClientClockIsMaximum | cloud/sync_service.py:479-492 | the same, entry by entry: an upper bound that is attained, or zero |
| SyncProperties.ResolutionMovesNoClock | cloud/sync_service.py:353-358 | resolving, under any strategy and however it ends, changes no client's clock and adds no client |
| SyncProperties.RunKeepsRecords | cloud/sync_service.py:175-182 | in every reachable state a conflict lists at least two operations, and all but the first are stored |
| SyncProperties.LwwFailsExactly | cloud/sync_service.py:347-358 | last-writer-wins raises exactly when the rejected operation wins and no operation is stored under its id; that conflict alone is marked resolved either way, and stored operations and versions stay |
| Failures.LwwCanFail | cloud/sync_service.py:298-357 | that is reached: whenever a new service is sent two updates of one entity with equal clocks, the second one later, resolving raises and leaves the conflict resolved |
| SyncProperties.RunIsBalanced | cloud/sync_service.py:297-327 | submissions are applied operations plus conflicts, versions are as many as applied operations, and the stored ids are those applied |
| SyncProperties.Conservation | cloud/sync_service.py:279-327 | the same counts, and stored operations are as many as applied ones exactly when no id was applied twice |
| SyncProperties.SubmissionsAreStoredOrRecorded | cloud/sync_service.py:279-327 | with new operation ids, submissions, direct or by restore, equal stored operations plus recorded conflicts, and versions equal stored operations |
| SyncProperties.ResolvedForGood | cloud/sync_service.py:347-351 | no call drops a conflict or rewrites its operations; only resolving that conflict changes its status, and never back to pending |
| SyncProperties.ResolvedStaysResolved | cloud/sync_service.py:347-351 | a conflict resolved at some point of a run is resolved at the end |
| SyncProperties.ConcurrentWithEmpty | cloud/sync_service.py:55-57 | a clock without negative entries is concurrent with the empty clock exactly when all its entries are zero |
| SyncProperties.RestoreExactly | cloud/sync_service.py:397-413 | a restore completes exactly when no stored update or delete of the entity is concurrent with the empty clock; otherwise it raises and leaves one more pending conflict, and nothing else changes |
| SyncProperties.RestoreExactlyNatural | cloud/sync_service.py:397-413 | with natural clocks: exactly when no stored update or delete of the entity has an all-zero clock |
| SyncProperties.RestoreAddsVersion | cloud/sync_service.py:397-413 | a completed restore adds one last version with the restored data, whose parent is the newest before |
| SyncProperties.SnapshotIsAddedLast | cloud/sync_service.py:465-475 | a snapshot is appended to its entity's versions and leaves those of other entities alone |
| SyncProperties.SpentMeansFailure | cloud/sync_service.py:407-413 | no restore passes an empty-clock update on its entity |
| SyncProperties.OneRestorePerEntity | cloud/sync_service.py:382-416 | over any run with new generated ids, a later restore of the entity completes exactly when no stored update or delete is concurrent with the empty clock, and that takes a client's operation stored in between under the id of the earlier restoring one; otherwise it raises |
| Calls.ClashesExactly | cloud/sync_service.py:154-173 | what stands in an operation's way: one of the same entity, update against update or delete, with entry-wise equal or incomparable clocks |
| Calls.DetectionIsRecord | cloud/sync_service.py:150-182 | the record names the entity, lists the operation and then exactly the stored ones in its way, in the order they were stored, each with the kind of the dispute |
| Calls.SubmitCall | cloud/sync_service.py:279-327 | a submission with such an operation stored adds one pending record of it and nothing else; any other stores the operation, appends a version of the entity with the operation's author, kind, data and the time, whose parent is the entity's newest, and raises its client's clock to the entry-wise maximum, synced now |
| Calls.StringLessExactly | cloud/sync_service.py:193 | ids compare by the first place they differ, or by length |
| Calls.WinnerExactly | cloud/sync_service.py:191-193 | the winner is the first operation of the latest time and, among those, of the last id, whatever its kind |
| Calls.LwwCall | cloud/sync_service.py:347-358 | the record becomes resolved now with the winner's id and data; the winner's client is synced if the winner is stored, and otherwise the call raises |
| Calls.CrdtLastWord | cloud/sync_service.py:196-208 | at every place the merged data are those of the last of the conflict's updates with a value there or a leaf above it |
| Calls.CrdtCall | cloud/sync_service.py:244-249 | the record becomes resolved now with the last word of all its operations at every place, and nothing else changes |
| Calls.ManualCall | cloud/sync_service.py:251-257 | the record becomes resolved now with the data given |
| Calls.RefusedResolution | cloud/sync_service.py:251-260 | an unknown conflict, missing or empty manual data and an unknown strategy raise and change nothing |
| Calls.RestoreCall | cloud/sync_service.py:397-413 | a restore submits an update by "system", stamped now, with an empty clock and the version's entity and data; when that is rejected its record stays and the call raises |
| Calls.UnknownVersion | cloud/sync_service.py:390-391 | restoring an unknown version raises and changes nothing |
| Calls.StatusCall | cloud/sync_service.py:418-424 | asking for an unknown client adds one with an empty clock that was never synced, and nothing else |
| Calls.RestoreAgainstUpdate | cloud/sync_service.py:397-404 | against a client's update that disputes only a restore, last-writer-wins settles for the restore exactly when it was made after the time the update is stamped with, or at that time with the later id, and otherwise raises |
| Calls.VersionsHoldOperations | cloud/sync_service.py:448-477 | over any run the versions, in order of creation, hold the entity, author, kind and data of the accepted operations, one each |
| Calls.RestoreGivesDataBack | cloud/sync_service.py:382-416 | over any run, restoring the version an operation of any kind made writes that operation's data back to its entity |
| Failures.RestoreCanRepeat | cloud/sync_service.py:311-312 | runs of that exception: the restoring operation is overwritten and the entity restored a second time |
| VersionGraph.NewestAt | cloud/sync_service.py:457-462 | the parent chosen has the greatest timestamp, and is the first that has it |
| VersionGraph.ParentsComeEarlier | cloud/sync_service.py:457-472 | only the first version has no parent; every other's parent is one particular earlier version of the entity |
| VersionGraph.WalkToRoot | cloud/sync_service.py:457-472 | following parents from any version leads through ever earlier versions to the first |
| VersionGraph.ParentIsPrevious | cloud/sync_service.py:457-462 | the parent is the version just before exactly when that one is later than all before it |
| VersionGraph.ChainExactly | cloud/sync_service.py:457-472 | the versions form one chain exactly when all timestamps but the last strictly increase |
| VersionGraph.RunKeepsLaw | cloud/sync_service.py:448-477 | in every reachable state each version's parent is the newest version of its entity created before it, and version ids differ |
| VersionGraph.VersionsFormTree | cloud/sync_service.py:448-477 | in every reachable state the versions of an entity form a tree with one root |
| VersionGraph.RestoredIsNewestExactly | cloud/sync_service.py:457-475 | in every reachable state a restored version becomes its entity's newest exactly when it happens later than the newest before |
| VersionGraph.HistoryIsSorted | cloud/sync_service.py:372-380 | the listing is newest first, a permutation of the entity's versions, and keeps the order of equal timestamps |
| VersionGraph.HistoryIsReversed | cloud/sync_service.py:372-380 | with strictly increasing timestamps it is the creation order reversed |
| VersionGraph.HistoryIsParentWalk | cloud/sync_service.py:369-380 | over any run in strictly increasing time the versions of an entity are one chain, and the listing is the parent walk from the newest through all of them |
| VersionGraph.HistoryIsParentWalkExactly | cloud/sync_service.py:369-380 | in every reachable state the listing is a parent walk exactly when the entity's timestamps strictly increase in order of creation |
| Convergence.StoredIsUnion | cloud/sync_service.py:311-312 | after a batch with new ids the table holds what it held and each operation of the batch under its id |
| Convergence.BatchStores | cloud/sync_service.py:279-327 | a fully accepted batch is stored as a whole and records no conflict |
| Convergence.BatchJoins | cloud/sync_service.py:314-315 | it adds exactly its clients, and merges into each clock the clocks of that client's operations |
| Convergence.AcceptanceIsOrderFree | cloud/sync_service.py:292-327 | a batch with new ids is accepted in full exactly when no two of its operations clash and none clashes with a stored one |
| Convergence.RearrangedBatch | cloud/sync_service.py:144-184 | newness and freedom from clashes survive any permutation |
| Convergence.JoinIgnoresOrder | cloud/sync_service.py:35-38 | merging clocks in any order gives the same map, also with negative entries |
| Convergence.Converges | cloud/sync_service.py:279-327 | from any state, when one order of a batch is accepted in full, so is every permutation, ending in the same stored operations, conflicts, clients and client clocks |
| RateLimiter.RateLimitMiddleware.Dispatch | backend/app/middleware.py:33-64 | one request prunes the log of its key, is answered, and is recorded when admitted; no other log changes |
| RateLimiter.LogIsSurviving | backend/app/middleware.py:48-60 | with any clock, the stored log holds exactly the admitted times that no later request on the key found sixty seconds old |
| RateLimiter.DecisionExactly | backend/app/middleware.py:48-60 | with any clock, a request is admitted exactly when fewer than the limit of those times are recent for it too |
| RateLimiter.RecentSplits | backend/app/middleware.py:48-60 | the recent admissions on a key are those still in the log and those forgotten by a step back |
| RateLimiter.AgreesExactly | backend/app/middleware.py:48-60 | with any clock, the decision is that of counting all recent admissions exactly unless the limit is reached only with the forgotten ones; a difference always admits |
| RateLimiter.SameDecisionsExactly | backend/app/middleware.py:33-64 | over any run with any clock, the limiter and one that forgets nothing answer every request alike exactly when no request slips in that way |
| RateLimiter.RefinesPlainLimiter | backend/app/middleware.py:33-64 | over any run without the clock stepping back, a request is admitted exactly when fewer than the limit were admitted on its key in the last sixty seconds, by a limiter that forgets nothing |
| RateLimiter.SameAdmissions | backend/app/middleware.py:33-64 | over such a run both limiters admit the same requests |
| RateLimiter.SteppingBackAdmitsMore | backend/app/middleware.py:48-60 | a run with a clock that steps back on which the two differ |
| RateLimiter.AdmissionsAreThin | backend/app/middleware.py:51-60 | with any clock, if no request on a key slips, every admission finds fewer than the limit of those before it recent |
| RateLimiter.ThinExactly | backend/app/middleware.py:51-60 | and only then, where all requests on the key have that limit |
| RateLimiter.AdmissionsAreSpaced | backend/app/middleware.py:51-60 | when time does not go back, admissions on a key that lie a limit apart in order are at least sixty seconds apart in time |
| RateLimiter.WindowBound | backend/app/middleware.py:33-64 | over any run with any clock, a key on which no request slips has in any half-open interval, open on either side, at most the limit times the number of minutes it takes to cover the interval |
| RateLimiter.MinuteBound | backend/app/middleware.py:33-64 | in particular at most the limit in any sixty seconds |
| RateLimiter.MonotoneWindowBound | backend/app/middleware.py:33-64 | no request slips, and the bound holds, in every run in which time does not go back |
| RateLimiter.EndpointBound | backend/app/middleware.py:39-60 | the same for one address and endpoint, with ten for the sensitive endpoints and the configured number for the others |
| RateLimiter.LimitInNumbers | backend/app/middleware.py:26-43 | ten for login, register and refresh, whatever is configured, and the configured number elsewhere |
| RateLimiter.DecisionInNumbers | backend/app/middleware.py:39-60 | with any clock, a request is admitted exactly when fewer than ten, or the configured number, of the admitted ones on its key are less than sixty seconds old and were found so by every request since |
| RateLimiter.MinuteInNumbers | backend/app/middleware.py:26-60 | on a key on which no request slips, at most ten admissions to an endpoint of authentication in any sixty seconds, and at most the configured number elsewhere |
| RateLimiter.MonotoneMinuteInNumbers | backend/app/middleware.py:26-60 | the same in every run in which time does not go back |
| RateLimiter.LogsStayWithinLimit | backend/app/middleware.py:48-60 | no stored log exceeds its limit, whatever the clock does |
| RateLimiter.KeysAreIndependent | backend/app/middleware.py:45-60 | a decision depends only on earlier requests with the same key |
| RateLimiter.KeysDoNotCollide | backend/app/middleware.py:46 | two requests share a key only when they share address and endpoint, although addresses may contain the separator |
| McpClients.MCPClient.ConnectClient | extension/mcp-client.js:18-59 | an opened port connects the client, resets the attempts and sends a handshake; otherwise it disconnects and schedules a retry |
| McpClients.MCPClient.SendMessage | extension/mcp-client.js:61-98 | a connected client gives out the next number and arms its timer, or settles it at once when posting fails; an unconnected one changes nothing |
| McpClients.MCPClient.HandleMessage | extension/mcp-client.js:100-114 | a message that names a pending request settles it and disarms its timer; any other leaves the table alone |
| McpClients.MCPClient.HandleTimeout | extension/mcp-client.js:74-77 | an armed timer settles its request; a disarmed one does nothing |
| McpClients.MCPClient.HandleDisconnect | extension/mcp-client.js:299-306 | port and connection are gone, a retry is scheduled, pending requests keep waiting |
| McpClients.MCPClient.HandleConnectionError | extension/mcp-client.js:308-312 | the connection is gone and a retry scheduled |
| McpClients.MCPClient.AttemptReconnect | extension/mcp-client.js:314-333 | up to the fifth attempt, one more retry is scheduled with twice the delay |
| McpClients.MCPClient.DisconnectClient | extension/mcp-client.js:369-375 | port and connection are gone and nothing else changes |
| McpClients.EveryRequestAccounted | extension/mcp-client.js:61-114 | after any interleaving each number given out is pending or settled, never both and never settled twice; the pending ones are those with an armed timer |
| McpClients.StepSettlesItsOwn | extension/mcp-client.js:61-114 | one event settles at most one promise, the one it names, and leaves earlier settlements as they are; a late answer settles nothing |
| McpClients.FirstVerdictCounts | extension/mcp-client.js:61-114 | each request is settled by the first answer or timeout that names it after it was sent, or by failing to post it, and is pending exactly until then |
| McpClients.AllSettleInTheEnd | extension/mcp-client.js:74-77 | once the armed timers have fired, in any order, every request given a number is settled |
| McpClients.DelaysAreBounded | extension/mcp-client.js:314-332 | retries wait one, two, four, eight or sixteen seconds |
| McpClients.DelaysDouble | extension/mcp-client.js:299-333 | since the connection was last opened, the first five losses scheduled retries after one, two, four, eight and sixteen seconds, in this order, and later losses none |
| McpClients.ConnectedExactly | extension/mcp-client.js:18-59 | over any run the client is connected exactly while the connection was opened and neither lost nor closed since |
| McpClients.NumbersExactly | extension/mcp-client.js:61-66 | every opening and every sending while connected gets the next number; sending otherwise changes nothing |
| Rollouts.PlanClimbs | scripts/deploy_agent_v2.py:345-382 | the closed form of the stages rises strictly, follows the loop's update and reaches the maximum at the last stage only |
| Rollouts.TerminatesExactly | scripts/deploy_agent_v2.py:345-382 | with nothing failing the loop reaches its exit exactly when it starts at the maximum or above, or the increment is positive |
| Rollouts.EndsExactly | scripts/deploy_agent_v2.py:345-382 | with failures the loop ends exactly then or when some stage is refused, raises or exceeds the threshold |
| Rollouts.NotCleanExactly | scripts/deploy_agent_v2.py:350-374 | a stage fails exactly when its write is refused, its poll raises, or the errors among the executions, in percent, exceed the threshold |
| Rollouts.SuccessfulWrites | scripts/deploy_agent_v2.py:345-385 | a successful rollout makes one write and one for each started increment, strictly increasing from the initial percentage to the maximum |
| Rollouts.DeploymentOrchestrator.UpdateFeatureFlag | scripts/deploy_agent_v2.py:295-316 | one more write is attempted, and its answer returned |
| Rollouts.DeploymentOrchestrator.RunGradualRollout | scripts/deploy_agent_v2.py:335-385 | in every rollout that ends, the k-th write is the k-th stage's percentage; writing stops at the first stage that is refused, raises or exceeds the error threshold, and success means that none did and the plan is complete |
| Rollouts.DeploymentOrchestrator.RunRollback | scripts/deploy_agent_v2.py:387-403 | attempts to write zero and answers whether that succeeded |
| Rollouts.DeploymentOrchestrator.Deploy | scripts/deploy_agent_v2.py:405-438 | success exactly when both checks and all stages succeed; a failed check attempts no write; a raising check attempts only zero; a failing rollout attempts the stages up to the failing one and then zero |
| Storage.StorageManager.SaveSettings | extension/storage-manager.js:47-61 | the given settings replace the current or default ones key by key |
| Storage.StorageManager.AddToHistory | extension/storage-manager.js:90-116 | the entry goes in front of what reading a hundred entries back gives, cut to the limit in the settings, which may be a number, a numeral or true |
| Storage.StorageManager.SaveCache | extension/storage-manager.js:139-158 | the entry replaces what its key held; other entries stay, expired or not |
| Storage.StorageManager.GetCache | extension/storage-manager.js:160-188 | an empty key reads everything; another answers its value, or null, deleting the entry if it has expired |
| Storage.StorageManager.ClearCache | extension/storage-manager.js:190-211 | removes one entry, or the whole cache for an empty key |
| Storage.StorageManager.ExportData | extension/storage-manager.js:213-230 | session, settings and full history as a reader sees them |
| Storage.StorageManager.ImportData | extension/storage-manager.js:232-255 | imports what is present; settings are merged over the current ones |
| Storage.StorageManager.ClearAll | extension/storage-manager.js:257-265 | nothing is left |
| Storage.RunHasDefaultKeys | extension/storage-manager.js:47-88 | in every reachable store the settings contain every default key |
| Storage.RoundTripExactly | extension/storage-manager.js:213-265 | export, clear and import give back session, settings and history exactly when the settings contain every default key |
| Storage.ExportImportRoundTrip | extension/storage-manager.js:213-265 | so they do in every reachable store |
| Storage.NewStoreSettings | extension/storage-manager.js:73-88 | what a new store answers: the twelve default settings, no session, no history |
| Storage.SettingExactly | extension/storage-manager.js:47-71 | over any run each setting reads as the value last saved or imported for it since everything was cleared, or its default |
| Storage.SessionExactly | extension/storage-manager.js:14-45 | over any run the session reads as last saved or imported and not cleared, and as null when empty |
| Storage.HistoryExactly | extension/storage-manager.js:90-137 | over any run the history is each entry added before the latest hundred of those before it, cut by the limit of the time, or what was imported since |
| Storage.LimitByKind | extension/storage-manager.js:101-105 | the limit for every kind of setting: the number, one for true, the value of a numeral, and a thousand for an empty one |
| Storage.HistoryAfterAdding | extension/storage-manager.js:90-127 | the new entry first, then the old ones in order, at most 101 in all; the exact length for every limit |
| Storage.CacheExactly | extension/storage-manager.js:139-211 | with any clock, an entry is cached exactly when it was saved, not cleared, and not found expired by a lookup since; it is then the latest saved |
| Storage.LookupExactly | extension/storage-manager.js:160-188 | with any clock, a lookup answers as a timed map that never evicts would, exactly unless an earlier lookup found expired a value that is not expired now |
| Storage.CacheAgrees | extension/storage-manager.js:139-211 | in a run without the clock stepping back, what is cached is the latest saved value and what is missing was never saved, was cleared or has expired |
| Storage.LookupAnswersLatest | extension/storage-manager.js:160-188 | in such a run a lookup answers the latest saved value exactly while its age is within its time to live, as a map that never evicts would |
| KeyRotation.EncryptionService.constructor | cloud/encryption_service.py:258-279 | a new service holds the first key pair |
| KeyRotation.EncryptionService.RotateKey | cloud/encryption_service.py:370-401 | an unknown key is refused without a change; otherwise the key is marked rotated and a key of the next version is added with its own pair |
| KeyRotation.EncryptionService.RevokeKey | cloud/encryption_service.py:403-412 | an unknown key is refused without a change; otherwise only its status changes |
| KeyRotation.KeysFormChain | cloud/encryption_service.py:370-401 | over any run the keys are the consecutive versions one to n, each with its number and a matching pair, and exactly those before the n-th have been rotated |
| KeyRotation.RotationIsFreshExactly | cloud/encryption_service.py:381-397 | rotating a key makes a new id exactly when that key was never rotated before |
| KeyRotation.NamesInFull | cloud/encryption_service.py:270-381 | the first id, and each other one as the id before with its own number attached |
| KeyRotation.RecordsExactly | cloud/encryption_service.py:370-412 | over any run the record of every version in full: id, type, algorithm, number, the public key of its private key, and whether the last event on it rotated, revoked or made it |
| KeyRotation.EnvelopeOpens | cloud/encryption_service.py:294-368 | an envelope opens to its text with the private key of its pair, the first 512 bytes being the wrapped key |
| KeyRotation.EnvelopeLayout | cloud/encryption_service.py:304-326 | an envelope names its key and algorithm; its first 512 bytes unwrap to the 32-byte data key, and the rest is the text sealed with it under the iv and tag given |
| KeyRotation.EncryptionRefusedExactly | cloud/encryption_service.py:281-292 | encryption is refused exactly for an unknown key or one without a public part |
| KeyRotation.DecryptionExactly | cloud/encryption_service.py:330-368 | an envelope opens to a text exactly when the stored private key unwraps its first 512 bytes to a key that opens the rest to the text's bytes |
| KeyRotation.PrivateKeyStays | cloud/encryption_service.py:396-397 | the private key of a version stays unless the key before it is rotated again, and then it is the one brought by a later rotation |
| KeyRotation.EnvelopesStayReadable | cloud/encryption_service.py:294-412 | over any run that rotates no key twice, every envelope made along the way opens at the end under its own key id, also after rotation or revocation |
| KeyRotation.EnvelopeReadableExactly | cloud/encryption_service.py:294-412 | over any run at all, with key pairs that do not open each other's blocks, an envelope opens at the end exactly when the key its key was made from was not rotated again since |
| KeyRotation.EnvelopeCanBeLost | cloud/encryption_service.py:381-397 | a cipher that meets all the laws assumed, and a run on it whose envelope opens at first and no longer after the second rotation |
| KeyRotation.ToyIsLawful | cloud/encryption_service.py:304-366 | the inverse laws assumed of RSA, AES-GCM, Base64 and UTF-8 can be met together |
| Numerals.NumeralExactly | cloud/encryption_service.py:381 | the number attached to a key id reads back as the key's number |
| Numerals.ValueExactly | extension/storage-manager.js:102 | a text of digits without a leading zero is the numeral of the number it is taken for |

## Left out

- SyncServices.SyncService.GetSyncStatus: returns the client's state as a value; the source hands out the stored object itself, so a caller that changes it changes the table, which is not modelled. Conflict records and versions are values too: the source updates record fields in place, the model replaces the record under its key.
- SyncServices.SyncService.SubmitOperation: the operation is an immutable value; a caller that changes an operation or its payload after submitting it is not modelled.
- SyncServices.SyncService.GetSyncStatistics: the success rate is a real number, not a floating-point one.
- Checksums, encryption flags, log messages, and fields of records that no branch reads.
- Generated identifiers, keys and the current time: arguments of the calls, with newness assumed only where a statement says so. A restore uses one time for its operation and its version.
- The order of keys in a merged dictionary: documents are compared as maps.
- Payload values other than dictionaries are compared as opaque text.
- RateLimiter.RateLimitMiddleware.Dispatch: times are real numbers, not floating-point ones; calling the next handler is left out, as nothing of the log depends on it.
- McpClients.MCPClient.SendMessage: a message whose own `id` field overrides the envelope's number is not modelled; what the other side answers is arbitrary in any case. That a timer fires thirty seconds after it was armed is not modelled: it may fire at any time.
- McpClients.MCPClient.ConnectClient: a handshake that is refused or times out later leads to a connection error, which is a separate event of the interleaving.
- Messages started by the server, their handlers, and event listeners of the extension client.
- Rollouts.DeploymentOrchestrator.RunGradualRollout: requires that the rollout ends, as `EndsExactly` states; the endless one, with a climb that never comes and stages that never fail, has no result to speak of. Rates are real numbers; waiting between stages is left out.
- Rollouts.DeploymentOrchestrator.Deploy: the two checks before the rollout are arguments, each passing, failing or raising.
- Health checks, database migrations and the metrics record of the deployment script.
- Storage.StorageManager.AddToHistory: of texts only plain decimal integers are taken as numbers; other texts and objects set no limit. The entry comes with its time and id.
- Storage.StorageManager.SaveSettings: every setting has a value; one saved as `undefined`, which the browser's storage area drops together with its key, is not modelled.
- Storage.RunHasDefaultKeys: holds of runs that save no default setting as `undefined`, as all in the model do; `RoundTripExactly` says what a missing default key costs.
- Storage.StorageManager.ImportData: imported settings are a dictionary and an imported history is a list.
- Storage failures and interleaving inside one call of the extension's store; the calls that only set, remove or read the session and the history.
- Cache keys that name built-in object properties.
- RSA, AES-GCM, Base64 and UTF-8: functions with inverse laws (`Lawful`, `Separating`); nothing is stated about envelopes that were tampered with.
- The zero-knowledge proof service and key derivation from passwords.
