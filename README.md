# ID server replication and coordination, modelled in Dafny

This project models one node of a replicated login-name/UUID directory
(`src/Server/IdServer.java` and the classes it works on). Each node keeps:

- an identity table from login names to `LoginInfo` records;
- a Lamport clock;
- a bounded log of the last three actions it stamped as coordinator.

Clients send CREATE, MODIFY and DELETE actions and read-only queries. The
coordinator stamps every accepted action with its clock, logs it and copies
it to the replicas. A replica that sees a gap in the stamps, or whose ping
shows it is behind, asks the coordinator for what it missed. The answer is
either the tail of the log after the replica's last stamp or, when that stamp
has left the log, the whole table. Coordinators are chosen by a bully
election in which a larger hostname (by `String.compareTo`) wins.

How the model is built:

- **Values.** `LoginInfo`, `ActionObject`, `ErrorType`, `ServerResponse` and
  `SyncInfo` are datatypes.
- **Objects.** `LamportClock`, `ActionLog` and `IdServer` are classes whose
  methods change their fields in place.
- **Java `int`.** The clock and timestamps are the subset type `Int32`.
  `Inc` wraps from `INT_MAX` to `INT_MIN`, as `timestamp++` does.
- **Remote calls.** Every call a node makes on another server is appended
  to the `outbox` field, oldest first. The other servers and the RMI runtime
  answer through an `Env` value (module `ServerSteps`):
  - which replicas are `up`;
  - what `getClientHost()` returns;
  - what each replica answers to `getPreviousCoordinatorAddress()`;
  - the coordinator's ping answer;
  - the sync answer;
  - the uuid and date a new record gets when the clock reads `t`.
- **Specification functions.** Every state-changing method of `IdServer` is
  proved to move the node's state (`State()`, `RoleState()`) to what a ghost
  step function of `ServerSteps` computes from the old state and the `Env`.
  Lemmas about those step functions state what the source promises.
- **Outcomes.** A step ends in one of four ways:
  - `Completed`;
  - `RemoteFailure`: a `RemoteException` leaves the method;
  - `NullDereference`: a null is dereferenced;
  - `ProcessExit`: `System.exit`.

Behaviours of the code that the model keeps as written:

- MODIFY never updates `lastChangeDate`. MODIFY to the same name is a
  NAME_COLLISION.
- A replica ticks its clock for an accepted client write but does not forward
  the write to the coordinator. The write stays local.
- `syncWithOtherServer` never moves `latestActionTimestamp`. So a replica that
  synced from ping still reports its old stamp on the next ping (`SyncOutcomes`).
- `syncWithOtherServer` dereferences the null that an up-to-date peer
  returns. The model ends that step with `NullDereference`.
- A replayed CREATE makes a new record with the replaying node's own uuid,
  date and caller address. Nothing copies the coordinator's record.
- `becomeCoordinator` sets `isCoordinator` before it syncs with the previous
  coordinator. The actions it replays are therefore stamped, logged and
  broadcast again (`BecomeCoordinatorSyncsFromPrevious`, `ApplyStepEffects`).
- A node's first `latestActionTimestamp` is -1. While the clock does not wrap,
  every log key is at least 1 (`ReplayKeepsLogKeysPositive`), so -1 is never a
  log key and a node's first sync is always a full snapshot
  (`FirstSyncIsSnapshot`, `FirstSyncAfterReplayIsSnapshot`).
- When the ping answer says "behind", `coordinatorPingTask` runs
  `syncWithCoordinator` and starts an election if that sync fails remotely.
  Because one set `up` says which replicas answer within a step, and the
  coordinator has just answered the ping, that branch is never taken
  (`PingTaskCases`).

## Model

| member | source | states |
|---|---|---|
| LamportClocks.LamportClock.constructor | src/Server/IdServer.java:989-992 | a new clock reads 1 |
| LamportClocks.LamportClock.GetCurrent | src/Server/IdServer.java:994-996 | returns the current reading and changes nothing |
| LamportClocks.LamportClock.IncrementForEvent | src/Server/IdServer.java:998-1001 | the reading becomes `Next(old, Tick)`, that is, one more, with Java wrap-around |
| LamportClocks.LamportClock.AdjustToIncomingMessage | src/Server/IdServer.java:1003-1010 | the reading becomes `Next(old, Receive(t))`, the max of the old reading and t+1 |
| LamportClocks.IncrementAddsOne | src/Server/IdServer.java:998-999 | a tick adds exactly 1 below `INT_MAX`, and wraps to `INT_MIN` at it |
| LamportClocks.Observe | src/Server/IdServer.java:1003-1010 | the adjusted clock never decreases, is past the incoming stamp unless that stamp is `INT_MAX`, and is either the old reading or the stamp plus one |
| LamportClocks.RunIsMonotonic | src/Server/IdServer.java:986-1011 | over any run of ticks and receipts that does not wrap, the clock grows by at least the number of ticks and ends past every stamp it received |
| ServerResponses.ConstructorFields | src/Common/ServerResponse.java:19-32 | the error constructor keeps the error and has empty text; the text constructor keeps the text and has error NONE; the two agree only on (NONE, "") |
| LoginInfos.NewLoginInfo | src/Server/LoginInfo.java:21-29 | stores the login name, real name, password, creator address and the drawn uuid; the last-change date equals the created date |
| LoginInfos.ChangeLoginName | src/Server/LoginInfo.java:47-49 | sets the login name and keeps every final field (uuid, real name, creator address, both dates, password) |
| LoginInfos.ToStringShowsLoginName | src/Server/LoginInfo.java:38-40 | two records that differ only in login name print differently |
| LoginInfos.ToStringShowsUuid | src/Server/LoginInfo.java:38-40 | two records that differ only in uuid print differently |
| LoginInfos.ToStringShowsRealName | src/Server/LoginInfo.java:38-40 | two records that differ only in a non-null real name print differently |
| LoginInfos.ToStringShowsCreatorIpAddr | src/Server/LoginInfo.java:38-40 | two records that differ only in a non-null creator address print differently |
| LoginInfos.ToStringShowsCreatedDate | src/Server/LoginInfo.java:38-40 | two records that differ only in created date print differently |
| LoginInfos.ToStringShowsLastChangeDate | src/Server/LoginInfo.java:38-40 | two records that differ only in last-change date print differently |
| LoginInfos.ToStringHidesPassword | src/Server/LoginInfo.java:38-40 | the printed record does not depend on the password |
| LoginInfos.LeftCancel | src/Server/LoginInfo.java:38-40 | helper: a common prefix cancels |
| LoginInfos.RightCancel | src/Server/LoginInfo.java:38-40 | helper: a common suffix cancels |
| SyncInfos.FromRecentActions | src/Server/SyncInfo.java:11-14 | the tail constructor keeps the tail and leaves the table null |
| SyncInfos.FromAllData | src/Server/SyncInfo.java:16-19 | the snapshot constructor keeps the table and leaves the tail null |
| SyncInfos.ConstructorsAreTold | src/Server/SyncInfo.java:11-23 | `isEntireDatabase` is false for a tail and true for a snapshot; the two constructors never build the same payload, and none is both |
| Bully.CompareToIsAntisymmetric | src/Server/IdServer.java:892-894 | `compareTo(a, b)` is minus `compareTo(b, a)` |
| Bully.CompareToIsZeroIffEqual | src/Server/IdServer.java:892-894 | `compareTo` is zero exactly on equal strings |
| Bully.CompareToIsTransitive | src/Server/IdServer.java:892-894 | `compareTo` is transitive |
| Bully.BiggerBullyIsStrictAndTotal | src/Server/IdServer.java:892-894 | no hostname is a bigger bully than itself, and of two different hostnames exactly one is the bigger bully |
| Bully.UnbeatenExists | src/Server/IdServer.java:892-894 | every non-empty set of hostnames has one that no other beats |
| Bully.UnbeatenIsUnique | src/Server/IdServer.java:892-894 | that unbeaten hostname is unique |
| IdentityTables.RejectionChangesNothing | src/Server/IdServer.java:429-506 | the action is accepted exactly when the response is NONE; a rejected action leaves the table as it was and answers with empty text |
| IdentityTables.CreateAddsExactlyOneRecord | src/Server/IdServer.java:433-455 | CREATE of a taken name is NAME_COLLISION with the table unchanged; otherwise it adds exactly that key, keeps every other entry, stores the given fields and the drawn uuid, and answers with the uuid |
| IdentityTables.ModifyChecksInOrder | src/Server/IdServer.java:456-470 | MODIFY answers NO_SUCH_USER iff the old name is absent, INCORRECT_PASSWORD iff it is present with another password, NAME_COLLISION iff both pass and the new name is taken; every failure leaves the table unchanged |
| IdentityTables.ModifyRenamesOnlyTheLoginName | src/Server/IdServer.java:472-476 | an accepted MODIFY answers NONE, removes the old key, maps the new key to the same record with only the login name changed, and keeps every other key |
| IdentityTables.ModifyToSameNameCollides | src/Server/IdServer.java:462-470 | MODIFY to the name already held, with the right password, is a NAME_COLLISION |
| IdentityTables.DeleteRemovesExactlyOneKey | src/Server/IdServer.java:478-493 | DELETE answers NO_SUCH_USER before INCORRECT_PASSWORD; on failure the table is unchanged, on success exactly that key goes and the rest stays |
| IdentityTables.ApplyKeepsTableInvariants | src/Server/IdServer.java:429-494 | every table key is its record's login name after any action; uuids stay distinct when the drawn uuid is fresh |
| IdentityTables.ApplyKeepsUuids | src/Server/IdServer.java:429-494 | every surviving key other than a MODIFY's new name keeps its exact record |
| IdentityTables.LookupFindsTheRecord | src/Server/IdServer.java:313-326 | `lookup` is NO_SUCH_USER iff the name is absent, and otherwise the record's text |
| IdentityTables.RecordsInOrder | src/Server/IdServer.java:332 | helper: the records of the present keys, in iteration order |
| IdentityTables.RecordsInOrderMembers | src/Server/IdServer.java:332 | helper: the records listed are exactly the table's records under listed keys |
| IdentityTables.FirstWithUuid | src/Server/IdServer.java:332 | `findFirst` of the uuid filter: none iff no record has the uuid, else the first that has it |
| IdentityTables.FindRest | src/Server/IdServer.java:332 | helper: the same search past the first record |
| IdentityTables.ReverseLookupFindsTheRecord | src/Server/IdServer.java:328-342 | `reverseLookup` is NO_SUCH_USER iff no record has the uuid, and otherwise the text of a record that has it |
| IdentityTables.ReverseLookupIgnoresOrder | src/Server/IdServer.java:328-342 | when uuids are distinct, the answer does not depend on the hash map's iteration order |
| IdentityTables.PresentKeys | src/Server/IdServer.java:362-385 | helper: the listed keys that are in the table |
| IdentityTables.UuidsOf | src/Server/IdServer.java:371-375 | helper: the uuids of the records, in order |
| IdentityTables.EntryTexts | src/Server/IdServer.java:376-378 | helper: the printed `key=record` entry of each key, in order |
| IdentityTables.PresentKeysOfListing | src/Server/IdServer.java:362-385 | helper: when every listed key is present, the listing is kept whole |
| IdentityTables.GetListsTheTable | src/Server/IdServer.java:362-385 | `get` is MALFORMED_INPUT exactly for a selector other than "users", "uuids", "all", and NONE otherwise; "users" prints the keys in iteration order, "uuids" every record's uuid in that order |
| IdentityTables.GetAllPrintsEveryEntry | src/Server/IdServer.java:376-378 | `get("all")` prints a braced listing of `key=record` for every key, in iteration order |
| IdentityTables.EntryTextsAreTheEntries | src/Server/IdServer.java:377 | helper: entry i of the listing is the printed entry of key i |
| IdentityTables.EnumerationHasTheSize | src/Server/IdServer.java:362-385 | an iteration order lists as many keys as the table has |
| ActionLogs.LeastExists | src/Server/ActionLog.java:45-49 | helper: a non-empty key set has a least key |
| ActionLogs.LeastOfSplit | src/Server/ActionLog.java:45-49 | helper: the running minimum of `removeOldest`'s loop, one key at a time |
| ActionLogs.Least | src/Server/ActionLog.java:45-49 | the key `removeOldest` finds is in the log and no larger than any key |
| ActionLogs.LeastIsTheMinimum | src/Server/ActionLog.java:45-49 | the least key is unique |
| ActionLogs.RemovingTheMinimum | src/Server/ActionLog.java:45-51 | removing the least key, or anything from an empty log, is `removeOldest` |
| ActionLogs.RemoveOldestRemovesExactlyTheLeast | src/Server/ActionLog.java:45-51 | `removeOldest` removes exactly the entry with the least key, keeps the rest as they were, and removes nothing from an empty log |
| ActionLogs.AppendStaysWithinCapacity | src/Server/ActionLog.java:38-43 | with capacity at least one, a log within capacity stays within it |
| ActionLogs.AppendRecordsAction | src/Server/ActionLog.java:38-43 | after `appendAction(t, a)` the log maps t to a, and every other entry was there before |
| ActionLogs.SinceIsTheTailAfter | src/Server/ActionLog.java:24-36 | `getActionsSinceTimestamp(t)` is null iff t is not a key; otherwise it holds exactly the entries with larger keys, t excluded |
| ActionLogs.AscendingListsKeysInOrder | src/Server/IdServer.java:697 | a sorted map's key set iterates each key once, in strictly ascending order |
| ActionLogs.AscendingMembers | src/Server/IdServer.java:697 | helper: the ascending listing has exactly the keys |
| ActionLogs.AscendingSorted | src/Server/IdServer.java:697 | helper: the ascending listing is strictly increasing |
| ActionLogs.EntriesMapKeys | src/Server/ActionLog.java:38-51 | helper: the keys of a run of appends |
| ActionLogs.EntriesMapValues | src/Server/ActionLog.java:38-51 | helper: each appended stamp maps to its action |
| ActionLogs.EntriesMapAbove | src/Server/ActionLog.java:38-51 | helper: bounds on the keys of a run |
| ActionLogs.IncreasingSlice | src/Server/ActionLog.java:38-51 | helper: a slice of increasing stamps is increasing |
| ActionLogs.RestAboveFirst | src/Server/ActionLog.java:38-51 | helper: later stamps exceed the first |
| ActionLogs.EntriesMapSize | src/Server/ActionLog.java:38-51 | helper: distinct stamps give as many entries |
| ActionLogs.EntriesMapWithoutOldest | src/Server/ActionLog.java:45-51 | helper: the oldest of a run is its first stamp |
| ActionLogs.EntriesMapSnoc | src/Server/ActionLog.java:42 | helper: one more append adds one entry |
| ActionLogs.AppendToRun | src/Server/ActionLog.java:38-43 | helper: appending to a full window drops its first stamp |
| ActionLogs.AppendKeepsLastCapacity | src/Server/ActionLog.java:38-51 | appending strictly increasing stamps to an empty log keeps exactly the last `capacity` of them |
| ActionLogs.WindowStep | src/Server/ActionLog.java:38-51 | helper: the window after one more append |
| ActionLogs.LastWindow | src/Server/ActionLog.java:38-51 | helper: sequence slicing for the window |
| ActionLogs.EntriesMapSinceIndex | src/Server/ActionLog.java:24-36 | helper: the tail after a stamp of the window is the entries after it |
| ActionLogs.WindowSinceIndex | src/Server/ActionLog.java:24-36 | helper: the same for a window that starts later |
| ActionLogs.EvictedTimestampIsNotFound | src/Server/ActionLog.java:24-51 | after increasing appends, a stamp that was evicted gets the null answer |
| ActionLogs.RetainedTimestampGivesLaterEntries | src/Server/ActionLog.java:24-51 | after increasing appends, a stamp still held gets exactly the actions appended after it |
| ActionLogs.ActionLog.constructor | src/Server/ActionLog.java:9-14 | a new log is empty and has the given capacity |
| ActionLogs.ActionLog.Clear | src/Server/ActionLog.java:16-18 | the log becomes empty, so no timestamp is contained |
| ActionLogs.ActionLog.ContainsTimestamp | src/Server/ActionLog.java:20-22 | true iff the timestamp is a key; the log is unchanged |
| ActionLogs.ActionLog.GetActionsSinceTimestamp | src/Server/ActionLog.java:24-36 | the loop's result is `Since(log, t)` (see `SinceIsTheTailAfter`); the log is unchanged |
| ActionLogs.ActionLog.AppendAction | src/Server/ActionLog.java:38-43 | the log becomes `Appended(old, capacity, t, a)` (see `AppendStaysWithinCapacity`, `AppendRecordsAction`) |
| ActionLogs.ActionLog.RemoveOldest | src/Server/ActionLog.java:45-51 | the running-minimum loop leaves `WithoutOldest(old)` (see `RemoveOldestRemovesExactlyTheLeast`) |
| Replicas.KeptReplicasAreTheAllowed | src/Server/IdServer.java:175-182 | the replicas kept at startup are exactly the listed ones other than 127.0.0.1, 127.0.1.1 and the node's own address |
| Replicas.KeptReplicasKeepTheOrder | src/Server/IdServer.java:175-186 | filtering two lists one after the other is filtering each, so the kept replicas stay in their listed order |
| Replicas.KeptSingle | src/Server/IdServer.java:175-180 | helper: one listed replica is kept exactly when it is not a forbidden address |
| Replicas.CallsTo | src/Server/IdServer.java:829-835 | one call per listed replica index, in order |
| Replicas.IndicesInBelow | src/Server/IdServer.java:646-654 | helper: every listed index is a target below the bound |
| Replicas.IndicesInAreExact | src/Server/IdServer.java:646-654 | `getActiveReplicas` lists exactly the connected replicas, each once, in list order |
| Replicas.BroadcastCallsEachTargetOnce | src/Server/IdServer.java:515-526 | a loop over the replicas that calls each connected one is one call per active replica, in order |
| Replicas.ElectionAnnouncesToBiggerBullies | src/Server/IdServer.java:729-749 | the election loop sends only announcements and coordinator queries, announces only to stubbed replicas with a bigger hostname, and to every one of them |
| Replicas.ElectionHintIsFirstAnswer | src/Server/IdServer.java:727-740 | the coordinator address learnt is null iff no stubbed, live replica gave one, and otherwise the first such answer |
| ServerSteps.FirstIndexOf | src/Server/IdServer.java:765-778 | `getReplicaByHostnameOrDie`: the first replica with that hostname, or none exactly when no replica has it |
| ServerSteps.Originator | src/Server/IdServer.java:901-921 | `getRequestOriginatorOrDie`: the first replica whose hostname is the caller's address, or none exactly when there is no caller or no such replica |
| ServerSteps.ApplyStepEffects | src/Server/IdServer.java:429-506 | a rejected action changes nothing; an accepted one ticks the clock once; on a replica nothing else changes; on a coordinator the new stamp is the clock, the log maps it to the action, and each active replica is sent the action with the new and the previous stamp |
| ServerSteps.ApplyStepKeepsLogBehindClock | src/Server/IdServer.java:495-503 | while the clock does not wrap, log keys stay at or below the clock, and a new entry is stamped above all older ones |
| ServerSteps.ReplayOnReplicaKeepsLatest | src/Server/IdServer.java:697-699 | replaying a tail on a replica never moves its latest stamp, log or outbox |
| ServerSteps.ReplayKeepsLogBounded | src/Server/IdServer.java:697-699 | replaying keeps the log within `ACTION_LOG_SIZE` |
| ServerSteps.ReplayOutboxGrows | src/Server/IdServer.java:697-699 | replaying only appends to the outbox |
| ServerSteps.ReplaySnoc | src/Server/IdServer.java:697-699 | helper: replaying one more action applies it last |
| ServerSteps.AscendingSnoc | src/Server/IdServer.java:697 | helper: taking the least remaining key continues the ascending listing |
| ServerSteps.TailActionsSnoc | src/Server/IdServer.java:697-698 | helper: one more key adds its action |
| ServerSteps.TailActionsInOrder | src/Server/IdServer.java:697-698 | the actions fetched follow the keys, one for one |
| ServerSteps.TailIsReplayedInAscendingOrder | src/Server/IdServer.java:697-699 | the tail's actions are applied once each, in strictly ascending stamp order |
| ServerSteps.SyncOutcomes | src/Server/IdServer.java:692-701 | the sync completes iff the peer has a stub, answers and returns a non-null payload; it fails remotely iff the peer has a stub and is down; it first asks for what came after the latest stamp; a snapshot replaces the table; on a replica the latest stamp and log never move |
| ServerSteps.MissingInfoChoosesPayload | src/Server/IdServer.java:597-611 | the answer is the whole table iff the stamp is not in the log, null iff the stamp is the log's largest key, and otherwise the tail after the stamp |
| ServerSteps.FirstSyncIsSnapshot | src/Server/IdServer.java:597-611 | when every log key is at least 1, a node that never applied a replicated action (latest stamp -1) gets the whole table |
| ServerSteps.ApplyStepKeepsLogKeysPositive | src/Server/IdServer.java:495-503 | from a clock of at least 1 that does not wrap, applying an action ticks the clock at most once and keeps every log key between 1 and the clock |
| ServerSteps.ReplayKeepsLogKeysPositive | src/Server/IdServer.java:697-699 | replaying a run that does not wrap the clock keeps every log key between 1 and the clock, and adds at most one tick per action |
| ServerSteps.FirstSyncAfterReplayIsSnapshot | src/Server/IdServer.java:597-611 | a node that starts with an empty log and replays any run that does not wrap the clock answers stamp -1 with the whole table |
| ServerSteps.ClientUpdateOnReplicaStaysLocal | src/Server/IdServer.java:305-360 | a client write on a replica changes only its table and clock: no stamp, no log entry, no call |
| ServerSteps.PlayAppliesOrSyncs | src/Server/IdServer.java:657-666 | an action whose expected stamp is the latest is applied after the clock adjusts and becomes the latest; a step that does not complete changes no table, stamp or log |
| ServerSteps.PlayOutOfSequenceAsksCoordinator | src/Server/IdServer.java:657-684 | an action out of sequence first asks the coordinator for what came after the latest stamp |
| ServerSteps.InitiateElectionAnnouncesUpwards | src/Server/IdServer.java:715-757 | no-op while an election runs; otherwise one tick, not coordinator, no coordinator, conducting, not lost, and announcements with the new clock to exactly the stubbed bigger bullies; a learnt coordinator address other than its own makes `FirstIndexOf` of it the previous coordinator, or exits when no replica has it; with no such address the previous coordinator is kept |
| ServerSteps.ProcessElectionResultDecides | src/Server/IdServer.java:799-838 | the election ends; a lost one changes nothing else; a won one makes the node coordinator and, with no previous coordinator, one tick and a victory call to each active replica |
| ServerSteps.BecomeCoordinatorSyncsFromPrevious | src/Server/IdServer.java:810-838 | with a previous coordinator: a second tick, then a sync from it as coordinator whose first call asks for what came after the latest stamp; a null dereference exactly when the stub is missing or a live peer answers null or an empty payload; otherwise the step completes, the previous coordinator is forgotten and the victory is broadcast with the clock after the sync; when the previous coordinator is unreachable, the table is left alone and the victory is still broadcast; a snapshot replaces the table |
| ServerSteps.AnnouncementsAfterResponse | src/Server/IdServer.java:849-853 | helper: the calls after the response are the response followed by the election's calls |
| ServerSteps.AnnounceFromWeakerTakesOver | src/Server/IdServer.java:841-854 | an unknown caller exits; an announcement from a bigger hostname only adjusts the clock; one from a smaller hostname answers it when it is connected and then runs `initiateElection`: a running election leaves the role as it was; otherwise the node stops being coordinator, forgets its coordinator, clears `lostElection` and announces with its new clock to exactly the stubbed bigger bullies |
| ServerSteps.ResponseLosesTheElection | src/Server/IdServer.java:857-863 | with a known caller the clock adjusts, `lostElection` is set and the caller is reconnected when up; an unknown caller exits |
| ServerSteps.VictoryFollowsTheCaller | src/Server/IdServer.java:866-884 | with a known caller the log is cleared, the node stops being coordinator and follows the caller; an unknown caller exits |
| ServerSteps.PingTaskCases | src/Server/IdServer.java:562-588 | a coordinator, or a node with no coordinator, does nothing; a coordinator without a stub is a null dereference; otherwise it pings the coordinator with its clock and latest stamp, stops when the answer is "up to date", runs `SyncWithCoordinatorStep` when the answer is "behind" (a sync that never fails remotely), and starts an election when the coordinator is down |
| IdServers.ConnectToReplicas | src/Server/IdServer.java:174-186 | the startup loop keeps `KeptReplicas` and has a stub for exactly the kept replicas that answer |
| IdServers.FirstIndexIsUnique | src/Server/IdServer.java:765-778 | the first index is the one the search finds, and a hostname nobody has is not found |
| IdServers.IdServer.constructor | src/Server/IdServer.java:160-263 | empty log, not coordinator, no coordinator, no election; latest stamp -1; the clock is 1 plus one tick per successful bind and one for startup; replicas filtered; stubs for those that answer |
| IdServers.IdServer.CopyActionToReplicas | src/Server/IdServer.java:515-526 | the outbox gains one `playReplicatedAction` per connected replica, in order; nothing else changes |
| IdServers.IdServer.ApplyAction | src/Server/IdServer.java:429-506 | the response is the table's answer and the new state is `ApplyStep` (see `ApplyStepEffects`) |
| IdServers.IdServer.Create | src/Server/IdServer.java:305-311 | tick, apply the CREATE, tick: the new state is `ClientUpdate` |
| IdServers.IdServer.Modify | src/Server/IdServer.java:344-351 | tick, apply the MODIFY, tick: the new state is `ClientUpdate` |
| IdServers.IdServer.Delete | src/Server/IdServer.java:353-360 | tick, apply the DELETE, tick: the new state is `ClientUpdate` |
| IdServers.IdServer.Lookup | src/Server/IdServer.java:313-326 | the answer is `LookupIn` of the table (see `LookupFindsTheRecord`); two ticks |
| IdServers.IdServer.ReverseLookup | src/Server/IdServer.java:328-342 | the answer is `ReverseLookupIn` of the table in the given order (see `ReverseLookupFindsTheRecord`); two ticks |
| IdServers.IdServer.Get | src/Server/IdServer.java:362-385 | the answer is `GetIn` of the table (see `GetListsTheTable`); two ticks |
| IdServers.IdServer.GetMissingInfoSinceTimestamp | src/Server/IdServer.java:597-611 | the answer is `MissingInfo` (see `MissingInfoChoosesPayload`); nothing changes |
| IdServers.IdServer.SyncWithOtherServer | src/Server/IdServer.java:692-701 | the new state and outcome are `Sync` (see `SyncOutcomes`) |
| IdServers.IdServer.ReplayTail | src/Server/IdServer.java:697-699 | the loop applies the tail's actions in ascending stamp order: `Replay` of `InAscendingOrder` |
| IdServers.IdServer.SyncWithCoordinator | src/Server/IdServer.java:673-684 | the new state and outcome are `SyncWithCoordinatorStep`: one tick, exit when coordinator or with no coordinator, else sync with it |
| IdServers.IdServer.PlayReplicatedAction | src/Server/IdServer.java:657-666 | the new state and outcome are `PlayStep` (see `PlayAppliesOrSyncs`) |
| IdServers.IdServer.ReceivePing | src/Server/IdServer.java:591-594 | exits iff the caller is not a replica; otherwise the clock adjusts and the answer is true iff the replica's latest stamp equals this node's |
| IdServers.IdServer.CanvassReplicas | src/Server/IdServer.java:727-749 | the outbox gains the election round's calls and the learnt address is the round's hint (see `ElectionAnnouncesToBiggerBullies`, `ElectionHintIsFirstAnswer`) |
| IdServers.IdServer.InitiateElection | src/Server/IdServer.java:715-757 | the new state is `InitiateElectionStep` (see `InitiateElectionAnnouncesUpwards`) |
| IdServers.IdServer.InitiateElectionIfNotRunning | src/Server/IdServer.java:706-710 | the same step as `InitiateElection` |
| IdServers.IdServer.ProclaimVictory | src/Server/IdServer.java:829-835 | the outbox gains one victory call with the current clock per listed replica, in order |
| IdServers.IdServer.BecomeCoordinator | src/Server/IdServer.java:810-838 | the new state is `BecomeCoordinatorStep` |
| IdServers.IdServer.ProcessElectionResult | src/Server/IdServer.java:799-805 | the new state is `ProcessElectionResultStep` (see `ProcessElectionResultDecides`) |
| IdServers.IdServer.EnsureConnectedTo | src/Server/IdServer.java:974-978 | a replica that answers gets a stub; nothing else changes |
| IdServers.IdServer.ElectionAnnounce | src/Server/IdServer.java:841-854 | the new state is `ElectionAnnounceStep` (see `AnnounceFromWeakerTakesOver`) |
| IdServers.IdServer.ElectionResponse | src/Server/IdServer.java:857-863 | the new state is `ElectionResponseStep` (see `ResponseLosesTheElection`) |
| IdServers.IdServer.ElectionVictory | src/Server/IdServer.java:866-871 | the new state is `ElectionVictoryStep` (see `VictoryFollowsTheCaller`) |
| IdServers.IdServer.UpdateCoordinatorToOther | src/Server/IdServer.java:878-884 | one tick, the log cleared, not coordinator, and the given replica as coordinator |
| IdServers.IdServer.CoordinatorPingTask | src/Server/IdServer.java:562-588 | the new state is `PingTaskStep` (see `PingTaskCases`) |
| IdServers.IdServer.GetPreviousCoordinatorAddressActual | src/Server/IdServer.java:405-417 | null iff neither coordinator nor following one; the node's own address when coordinator; otherwise the coordinator's hostname |
| IdServers.IdServer.IndexOfHost | src/Server/IdServer.java:765-778 | the search loop finds `FirstIndexOf` |
| IdServers.IdServer.RequestOriginator | src/Server/IdServer.java:901-921 | the search loop finds `Originator` of the caller |
| IdServers.IdServer.GetActiveReplicas | src/Server/IdServer.java:646-654 | the loop lists `IndicesIn` of the connected replicas (see `IndicesInAreExact`) |
| IdentityTables.Apply | src/Server/IdServer.java:429-506 | definition of `applyAction`'s effect on the table and its response; its contract is `RejectionChangesNothing`, `CreateAddsExactlyOneRecord`, `ModifyChecksInOrder`, `ModifyRenamesOnlyTheLoginName`, `DeleteRemovesExactlyOneKey`, `ApplyKeepsTableInvariants` and `ApplyKeepsUuids` |
| IdentityTables.LookupIn | src/Server/IdServer.java:313-326 | definition of `lookup`'s answer; its contract is `LookupFindsTheRecord` |
| IdentityTables.ReverseLookupIn | src/Server/IdServer.java:328-342 | definition of `reverseLookup`'s answer; its contract is `ReverseLookupFindsTheRecord` and `ReverseLookupIgnoresOrder` |
| IdentityTables.GetIn | src/Server/IdServer.java:362-385 | definition of `get`'s answer; its contract is `GetListsTheTable` and `GetAllPrintsEveryEntry` |
| ServerSteps.ApplyStep | src/Server/IdServer.java:495-503 | definition of a node's `applyAction` step; its contract is `ApplyStepEffects`, `ApplyStepKeepsLogBehindClock` and `ApplyStepKeepsLogKeysPositive` |
| ServerSteps.Sync | src/Server/IdServer.java:692-701 | definition of `syncWithOtherServer`; its contract is `SyncOutcomes` |
| ServerSteps.MissingInfo | src/Server/IdServer.java:597-611 | definition of `getMissingInfoSinceTimestamp`; its contract is `MissingInfoChoosesPayload` |
| ServerSteps.ClientUpdate | src/Server/IdServer.java:305-360 | definition of a client CREATE, MODIFY or DELETE; its contract is `ClientUpdateOnReplicaStaysLocal` |
| ServerSteps.SyncWithCoordinatorStep | src/Server/IdServer.java:673-684 | definition of `syncWithCoordinator`; its contract is `PlayOutOfSequenceAsksCoordinator` and `PingTaskCases` |
| ServerSteps.PlayStep | src/Server/IdServer.java:657-666 | definition of `playReplicatedAction`; its contract is `PlayAppliesOrSyncs` and `PlayOutOfSequenceAsksCoordinator` |
| ServerSteps.InitiateElectionStep | src/Server/IdServer.java:715-757 | definition of `initiateElection`; its contract is `InitiateElectionAnnouncesUpwards` |
| ServerSteps.BecomeCoordinatorStep | src/Server/IdServer.java:810-838 | definition of `becomeCoordinator`; its contract is `ProcessElectionResultDecides` and `BecomeCoordinatorSyncsFromPrevious` |
| ServerSteps.ProcessElectionResultStep | src/Server/IdServer.java:799-805 | definition of `processElectionResult`; its contract is `ProcessElectionResultDecides` |
| ServerSteps.ElectionAnnounceStep | src/Server/IdServer.java:841-854 | definition of `electionAnnounce`; its contract is `AnnounceFromWeakerTakesOver` |
| ServerSteps.ElectionResponseStep | src/Server/IdServer.java:857-863 | definition of `electionResponse`; its contract is `ResponseLosesTheElection` |
| ServerSteps.ElectionVictoryStep | src/Server/IdServer.java:866-871 | definition of `electionVictory`; its contract is `VictoryFollowsTheCaller` |
| ServerSteps.UpdateCoordinatorStep | src/Server/IdServer.java:878-884 | definition of `updateCoordinatorToOther`; its contract is `VictoryFollowsTheCaller` and `IdServer.UpdateCoordinatorToOther` |
| ServerSteps.PingTaskStep | src/Server/IdServer.java:562-588 | definition of the coordinator ping task's body; its contract is `PingTaskCases` |
| ServerSteps.EnsureConnected | src/Server/IdServer.java:974-978 | definition of `ensureConnected` on the set of stubbed replicas; its contract is `ResponseLosesTheElection` and `IdServer.EnsureConnectedTo` |
| Bully.CompareTo | src/Server/IdServer.java:892-894 | definition of `String.compareTo` on characters; its contract is `CompareToIsAntisymmetric`, `CompareToIsZeroIffEqual` and `CompareToIsTransitive` |
| Bully.IsBiggerBully | src/Server/IdServer.java:892-894 | definition of `isBiggerBully`; its contract is `BiggerBullyIsStrictAndTotal`, `UnbeatenExists` and `UnbeatenIsUnique` |
| LoginInfos.ToString | src/Server/LoginInfo.java:38-40 | definition of `toString`; its contract is the `ToStringShows` lemmas and `ToStringHidesPassword` |
| SyncInfos.IsEntireDatabase | src/Server/SyncInfo.java:21-23 | definition of `isEntireDatabase`; its contract is `ConstructorsAreTold` |
| ServerResponses.ErrorResponse | src/Common/ServerResponse.java:19-22 | definition of the error constructor; its contract is `ConstructorFields` |
| ServerResponses.TextResponse | src/Common/ServerResponse.java:29-32 | definition of the text constructor; its contract is `ConstructorFields` |
| Replicas.KeptReplicas | src/Server/IdServer.java:175-186 | definition of the startup filter; its contract is `KeptReplicasAreTheAllowed` and `KeptReplicasKeepTheOrder` |
| Replicas.ElectionRound | src/Server/IdServer.java:727-749 | definition of the election loop's calls and hint; its contract is `ElectionAnnouncesToBiggerBullies` and `ElectionHintIsFirstAnswer` |
| Replicas.Broadcast | src/Server/IdServer.java:515-526 | definition of the calls a loop over the connected replicas makes; its contract is `BroadcastCallsEachTargetOnce` |
| ActionLogs.WithoutOldest | src/Server/ActionLog.java:45-51 | definition of `removeOldest`'s result; its contract is `RemoveOldestRemovesExactlyTheLeast` |
| ActionLogs.Appended | src/Server/ActionLog.java:38-43 | definition of `appendAction`'s result; its contract is `AppendStaysWithinCapacity`, `AppendRecordsAction` and `AppendKeepsLastCapacity` |
| ActionLogs.Since | src/Server/ActionLog.java:24-36 | definition of `getActionsSinceTimestamp`'s answer; its contract is `SinceIsTheTailAfter` |
| ActionLogs.TailAfter | src/Server/ActionLog.java:24-36 | definition of the entries after a stamp; its contract is `SinceIsTheTailAfter` |
| ActionLogs.Ascending | src/Server/IdServer.java:697 | definition of a sorted key set's iteration; its contract is `AscendingListsKeysInOrder` |
| LamportClocks.Next | src/Server/IdServer.java:998-1010 | definition of one clock event; its contract is `IncrementAddsOne` and `Observe` |
| LamportClocks.Run | src/Server/IdServer.java:986-1011 | definition of a run of clock events; its contract is `RunIsMonotonic` |

## Left out

- RMI plumbing is not modelled: the registry, the SSL and timeout socket factories, and binding (`bindForClients`, `bindForServers`). The constructor takes only whether each bind succeeded.
- `ReplicaConnection` is not modelled as an object. A replica is an index into `replicaHostnames`. Its non-null `serverStub` is membership in `hasStub`. `attemptConnection` and `isConnected` succeed for the replicas in `Env.up`.
- One set `up` stands both for "the registry lookup succeeds" and for "the remote call succeeds" within a step. A call that fails after `isConnected` succeeded is not modelled. `isConnected` also re-fetches the stub; that is not modelled, because it changes nothing the model observes.
- Timers are not modelled: autosave (and the clock tick of each save), the coordinator ping task and the election wait (`awaitElectionWin`). The ping task body (`CoordinatorPingTask`) and `processElectionResult` are each one atomic step that the caller runs when the timer fires. `InitiateElection` ends where the source schedules that timer.
- IdServers.IdServer.constructor: ends after the startup tick. The source then calls `initiateElection` and `startCoordinatorPing`; here the caller runs `InitiateElection` as the next step.
- File persistence is not modelled: `saveData`, `loadData` and the shutdown hook are I/O. The table `loadData` restores is the constructor's `savedData` parameter.
- `getCoordinator` is not modelled: it busy-waits with `Thread.sleep` until a coordinator is known, and then returns `GetPreviousCoordinatorAddressActual`.
- Concurrency is not modelled: `ConcurrentHashMap`, `synchronized` and interleaved RMI threads. Every method runs as one sequential step.
- `System.exit` and dereferences of null are modelled as the outcomes `ProcessExit` and `NullDereference`. What happens to the process after them is not modelled.
- `UUID.randomUUID`, `new Date()` and `getClientHost` are not modelled: they come in through `Env`. A uuid's freshness is a hypothesis of `ApplyKeepsTableInvariants`, not a guarantee of the model.
- Iteration order is not modelled. The order of a `ConcurrentHashMap`'s keys, used by `reverseLookup` and `get`, is the `order` parameter, a listing of the keys.
- Printing is modelled only approximately. `keySet().toString()` and `List.toString()` are `ListText`, and `loginData.toString()` is one printed entry per key in that order. Dates are their printed text.
- `String.compareTo` compares UTF-16 code units; the model compares Dafny `char`s.
- A MODIFY whose new name is null is not modelled: the type `Action` excludes it, because `ConcurrentHashMap.containsKey(null)` throws.
- LoginInfos.ChangeLoginName: is a value update, not an update in place. The record is only reachable through its table entry, which MODIFY removes before the rename and puts back after.
- Logging is not modelled: `logDebug`, `logError` and the event strings passed to the clock.
- `main` and command-line parsing are not modelled.
- The client programs are not modelled.
- The delegating wrappers for clients and for servers, and the remote interfaces, are not modelled.
- LamportClocks.RunIsMonotonic: assumes the run does not wrap the clock past `INT_MAX`. After a wrap the Java clock does decrease.
