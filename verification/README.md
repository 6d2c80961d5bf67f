# Skorekeeper: a verified model

Skorekeeper keeps every baseball game as an append-only log of actions. The log is replicated through Raft, stored
behind write-back caches, sent to watching clients, and replayed into a scoresheet. This project models the parts of it
that carry state across calls, in Dafny, and proves what they keep over every run. `dafny verify dfyconfig.toml` checks
all of it.

## What is modelled

| module | of the program |
|---|---|
| Actions | appending actions to a game, with the 100-entry duplicate window |
| GameStore | the write-back game store: cache, dirty set, files |
| Fsm, Recovery | committed commands applied one at a time; crash, restart on lagging files, replay |
| Batch | the same commands regrouped by game, against log order |
| Replicas | logs cut into batches, by different replicas and by replays after a crash |
| Sync, Hub, Spectator | the hub's revision check and retry matching, join, broadcast, and what a watching client ends up with |
| History, UndoStacks, ActiveGame | append-only undo and redo, and the client's incremental game |
| KeyRing, KeyLifetime, KeyManager | rotation, garbage collection and reload of the Raft encryption keys |
| IndexStore, AccessIndex, Auth, Registry | the access indices over their LRU caches, against the authority on access |
| Outs, Columns | out numbers and column layout of the scoresheet |
| Monitoring | round-robin metric buffers and latency histograms |
| Wrappers | optional values |

Code that updates objects in place is a class whose methods are proved against a function on the old state; the laws are
then lemmas about those functions. Code that computes a value is a function, or a method with its loop. State machines
over several components (Recovery, Replicas, Spectator, KeyLifetime, AccessIndex, UndoStacks) are steps and runs.

## What the proofs show about the code

Most laws hold as documented: what a post acknowledges is in the log, a game's metadata is the last word its log has on
each field, and encryption is invisible to readers. The following hold under a condition or not at all; where a row
below says "exactly", the condition is proved in both directions.

- A game cached with an old schema version loads until the next restart and is refused from then on. Two inputs lead
  there. A `GAME_START` can carry such a version: nothing checks it (`backend/validation.go:668`). And a game whose
  first action is no `GAME_START` is stored with version 0, which memory takes for the current one and the file does
  not (`backend/gamestore.go:355-358`). If neither happens and no save carries an old version, no file is ever refused.
- A tombstone loses `LastRaftIndex` (`backend/gamestore.go:404-410`), so replay after a crash can change the owner of a
  deleted game. Games that no entry deletes, and games with one owner throughout, recover exactly.
- A batch treats commands after a delete differently from log order (`backend/fsm.go:815-822`), and keeps the decoded
  part of a batch of actions that fails half-way (`backend/fsm.go:856-867`).
- A client whose log is empty joins without a revision and is only acknowledged, so it never receives the existing log
  through the join (`backend/websocket.go:488-491`).
- A watching client converges on the server log exactly as long as no post repeats an id that is out of the duplicate
  window by then, that is, one followed by 100 others.
- Keys are reloaded in name order (`backend/raft.go:176-207`). If the log's end was cut off below an earlier rotation
  this is not the order they were made in, and a later collection can drop a key in use. It can exactly if, at the
  restart, some key with a newer name has a lower index than what an older key still seals, or the same index as a
  snapshot. Two snapshots of one index can do the same without a restart.
- The documentation says keys are collected every 15 minutes (`docs/ENCRYPT-AT-REST.md:37`); the code collects them only
  when it rotates (`backend/raft.go:282`). The model follows the code.
- The documentation gives a user the highest level of any rule (`docs/AUTH-SECURITY.md:17-22`, `backend/AUTHZ.md:20`).
  The code stops at a role on the game (`backend/auth.go:79-93`), so a team's admin or scorekeeper who is also given
  "read" on a game can only read it. The model follows the code.
- Deleting a team unlinks its games, and saving it again does not link them back (`backend/registry.go:479-487`), until
  a rebuild. Conversely links are never removed when a game changes teams, the index understands the role "admin" and
  the public role "write" where `GetGameAccess` does not, and it counts the owner of a team as its member.
- A rebuild indexes what the stores list and forgets nothing else (`backend/registry.go:187-240`): what they no longer
  list stays indexed.
- An action that a live UNDO names before it arrives makes the incremental game differ from the recomputed one.
- A runner advance that pushes a batter's out back repeats an out number unless that batter was the latest out, and
  numbers its runners without a cap, so past three if there are too many (`frontend/reducer.js:548-585`).
- A coarse metric bucket holds the mean of its samples if they come once a minute from the bucket's start: the running
  average takes the minute for the number of the sample (`backend/monitoring.go:184-188`), and a sample out of step
  breaks the mean unless it equals it.
- A play can be moved into a column that its team does not see: the search for an empty cell does not look at the team.

## Assumptions

- Action ids are not empty and an UNDO names an earlier entry; where a law needs distinct ids it says so.
- Saves are routed by the id of the saved game, and a `GAME_START` names its own game; where stored actions must decode
  it says so, as actions are validated before they are proposed (`backend/websocket.go:617-633`).
- Every operation of a store, of the hub and of the key manager is one step. Storage does not fail.
- Reading the last index and rotating is one step and makes a key that is not in the ring, applied entries are never
  cut off, compaction leaves an entry, and at a snapshot the log goes past every snapshot listed.
- User ids are normalized e-mail addresses.

## Model

| member | source | states |
|---|---|---|
| Actions.ApplyAction | backend/validation.go:645-741 | an action that does not decode fails and changes nothing; otherwise nothing happens if its id is carried by one of the last 100 entries; else it is appended, and each field of the metadata is the one its payload carries, or the old one, by type of action |
| Actions.ApplyActions | backend/validation.go:628-640 | a batch stops at the first action that does not decode and keeps the ones before it; `changed` says exactly whether the log grew |
| Actions.ExtendIsExtendLog | backend/validation.go:645-741 | the log after a batch is a function of the log before, whatever the metadata |
| Actions.LastWordWins | backend/validation.go:664-741 | the game is what its log says: after any batch each field, from id and owner to status and version, holds the last word on it among the actions appended, or what it held before |
| Actions.ExtendLogGrows | backend/validation.go:738-740 | append-only: a batch adds only a suffix, no longer than the batch and drawn from it |
| Actions.NoMetadataWithoutAppend | backend/validation.go:651-664 | a batch that adds no entry changes no metadata either, and a non-empty batch always adds to an empty log |
| Actions.WindowStaysDistinct | backend/validation.go:651-664 | any 101 consecutive entries keep distinct ids, whatever is applied |
| Actions.LandsWholeIffUnseen | backend/validation.go:651-664 | a batch lands whole exactly when no member is still in the 100-entry window at its turn |
| Actions.FreshIsUnseen | backend/validation.go:651-664 | distinct ids that the log does not hold are such a batch |
| Actions.RetryIsAbsorbed | backend/websocket.go:803-809 | re-applying a whole batch whose first n actions repeat the end of the log equals applying only the rest, for n up to 100 |
| Actions.RetryIsAbsorbedIffInWindow | backend/websocket.go:803-809 | with distinct ids this holds exactly for n up to 100: the duplicate window and the batch cap fit with nothing to spare |
| GameStore.GameStore.LoadGame | backend/gamestore.go:319-375 | answers from memory, else from the file, else not found; a file of an old schema version is refused; no later answer changes |
| GameStore.GameStore.SaveGame | backend/gamestore.go:164-207 | file and cache hold the game, it is no longer dirty, no other game's answer or file changes |
| GameStore.GameStore.SaveGameInMemory | backend/gamestore.go:246-265 | cache holds the game; unforced, the file is what it was and the game is marked dirty; forced, the file holds the game at once and it is not dirty; no other game's answer or file changes |
| GameStore.GameStore.DeleteGame | backend/gamestore.go:387-440 | a readable game becomes, in memory and in its file at once, a tombstone that keeps the owner alone; an absent one is left; an unreadable one fails; no other game's answer or file changes |
| GameStore.GameStore.Flush | backend/gamestore.go:268-298 | a dirty game's file is brought up to date; no load changes its answer |
| GameStore.GameStore.FlushAll | backend/gamestore.go:301-316 | no load changes its answer, nothing is dirty, every cached game equals its file |
| GameStore.GameStore.Restart | backend/gamestore.go:153-161 | a new process answers every load from the files alone |
| GameStore.GameStore.Serve | backend/gamestore.go:164-440 | over every run of loads, saves, saves in memory, deletes and flushes, each load answers as a plain map of the games saved so far, or of their tombstones, would |
| GameStore.RestartIsInvisibleIffNoOldSchema | backend/gamestore.go:355-358 | after a flush, dropping the cache changes no load exactly when no cached game carries an old schema version: memory accepts such a game and the file is refused |
| GameStore.LookUpIff | backend/gamestore.go:319-375 | a load is refused exactly for an old file behind no cached copy, finds nothing exactly where neither is, and otherwise answers copy or file, version 0 read as the current one |
| Fsm.FSM.CheckGameConflict | backend/fsm.go:391-413 | an unforced save passes exactly when its log repeats every stored id in order and may go on |
| Fsm.FSM.AppendAll | backend/fsm.go:352-389 | a batch takes the place of the single action; both come to the same append |
| Fsm.FSM.CheckSave | backend/fsm.go:426-460 | a save that decodes and is not applied yet goes through exactly if it is forced, or there is no game, or it only adds to the stored history; then the game stored has log, details, status and version of the saved one and the index of the entry; the outcome in every other case |
| Fsm.FSM.CheckActions | backend/fsm.go:308-389 | actions are stored exactly if the game can be read, they decode, are not applied yet, and have an index or add something; the game stored extends the log, takes the last word on each field, and carries the index |
| Fsm.FSM.ApplySaveGame | backend/fsm.go:426-466 | the same for the store: when the save goes through, loads answer with it and its file holds it at once; otherwise nothing changes |
| Fsm.FSM.ApplyActionBatch | backend/fsm.go:308-389 | the same for actions, whose file waits for a flush unless the node stands alone |
| Fsm.FSM.ApplyDeleteGame | backend/fsm.go:468-482 | a game not past the index becomes a tombstone, in memory and on disk at once, that has its owner and nothing else; fails only if the game cannot be read |
| Fsm.FSM.ApplyCommand | backend/fsm.go:686-736 | dispatch over the three game commands |
| Fsm.StoresUnderItsKey | backend/validation.go:684-695 | a command whose GAME_START payload names its own game stores under its own id, through any batch |
| Fsm.SaveReplacesIff | backend/fsm.go:426-466 | one save replaces whatever was there exactly if it goes through, and changes nothing otherwise |
| Fsm.StepKeepsHistory | backend/fsm.go:391-466 | an unforced save or a batch of actions only extends the sequence of action ids |
| Fsm.HistoryIsAppendOnly | backend/fsm.go:391-466 | over every run of such commands the ids of each game only ever gain a suffix |
| Recovery.StepAlike | backend/fsm.go:308-482 | no command's outcome or effect depends on the owner of the game |
| Recovery.ForcedSaveWins | backend/fsm.go:443-449 | over every run, a forced save not applied before leaves the saved game, whatever the entries before it did |
| Recovery.ReplayIsIdempotent | backend/fsm.go:308-482 | replaying any part of a log onto its own result changes nothing, or after a delete at most the owner of the tombstone |
| Recovery.ReplayRecovers | backend/fsm.go:308-482 | from a game's file as it was after any number of entries, replaying them all gives the crash-free game: exactly without deletes, up to the owner with them |
| Recovery.ReplayRecoversExactly | backend/fsm.go:308-482 | exactly, deletes included, if the game has one owner throughout: every save and GAME_START of it names the owner it has, and one that does not exist yet begins with it |
| Recovery.DeletedOwnerStaysIff | backend/gamestore.go:404-410 | a command that may lose against the stored game (an unforced save, or a single action), followed by a delete, is replayed exactly onto every game of an owner if and only if it names that owner |
| Recovery.RunKeepsOwner | backend/fsm.go:308-482 | one owner throughout is kept by every run |
| Recovery.UnreadableStaysUnreadable | backend/gamestore.go:355-357 | a game that cannot be read stays so over every log that does not save it |
| Recovery.RecoversIffNotOld | backend/gamestore.go:355-357 | a file whose last written version is not old recovers; an old one stays refused and recovers only if a save is replayed, so without saves it recovers exactly if the version is not old |
| Recovery.SaveRepairs | backend/fsm.go:426-466 | the first save replayed onto a refused file repairs it, exactly if it went through in the crash-free run too |
| Recovery.WroteLoads | backend/gamestore.go:319-375 | a file that is not refused loads as the game of the run at the entry that wrote it |
| Recovery.WritesOldSchemaIff | backend/validation.go:664-741 | a command writes a version that is refused from disk exactly if it saves one, or appends actions after which the last GAME_START among them names an old one, or, with none, the game had one or was only just made |
| Recovery.VersionIsTheLastStart | backend/validation.go:664-741 | a batch leaves the version of the last GAME_START it appends, 0 standing for the current one |
| Recovery.StaysModern | backend/validation.go:664-741 | if saved games and GAME_STARTs carry no old version and a new game begins with one of them, no copy of any run carries one |
| Recovery.OldStartIsRefused | backend/validation.go:668 | a GAME_START naming version 1 makes a game that memory loads and the file refuses, and replaying it does not help |
| Recovery.MissingStartIsRefused | backend/gamestore.go:355-358 | so does a first action that is no GAME_START, which stores version 0 |
| Recovery.DeletedOwnerMayChange | backend/gamestore.go:404-410 | the tombstone forgets the applied index, so a save that lost a conflict can win on replay: a concrete log changes the owner |
| Recovery.ApplyThenFlush | backend/fsm.go:212-234 | a command and any flushes after it: loads and copies follow the command, each file is what it was or the current copy, and the current copy for every flushed game |
| Recovery.StepOnTrack | backend/fsm.go:212-234 | every game stays on its own run and every file is the copy of some prefix of the log, whatever its version |
| Recovery.ApplyWithFlushes | backend/fsm.go:1025-1056 | the same from a flushed snapshot over the whole log, with flushes anywhere |
| Recovery.CrashAndReplay | backend/raft.go:556-562 | crash after that, restart on the files, replay: every game whose last written version is not old ends as without the crash (exactly without deletes or with one owner, else up to the owner), and every other one is refused unless a save is replayed |
| Recovery.CrashOnce | backend/raft.go:556-562 | one such crash, anywhere in the log, from any such state: what is on disk still leads where the start led, and carries no old version |
| Recovery.SurviveCrashes | backend/raft.go:556-562 | any number of crashes, each anywhere in the log with any flushes: if nothing writes an old version, every game ends as without them |
| Batch.ApplyInMemory | backend/fsm.go:809-884 | one command of a job: skipped if applied, refused on a deleted game unless it is a save; a save succeeds exactly if forced, on a deleted game, or adding to the history, and leaves the saved game with the index of the entry; actions extend the log; saves and deletes ask for the disk |
| Batch.ApplyItems | backend/fsm.go:809-884 | the apply loop leaves the specified game and flags, asks for the disk exactly if a save or delete went through, files each outcome at its entry's position and touches no other result |
| Batch.FailAll | backend/fsm.go:794-799 | an unreadable game fails each of its entries and nothing else |
| Batch.StoreJob | backend/fsm.go:886-921 | a job that changed something is stored once; the file is current at once after a save or a delete, and otherwise left to a flush unless the node stands alone |
| Batch.ProcessGameJob | backend/fsm.go:790-922 | load once, apply in memory, store once: the specified game, copy, file and outcomes, and no other game or result changes |
| Batch.Group | backend/fsm.go:576-638 | each game's job holds exactly the positions of its entries, in log order |
| Batch.ApplyBatch | backend/fsm.go:571-684 | in whatever order the jobs run, every game and every result is that of its own job alone |
| Batch.ApplyEntry | backend/fsm.go:212-234 | applying one entry is one step of the in-order run |
| Batch.ApplyInOrder | backend/fsm.go:212-234 | the log-order counterpart of a batch |
| Batch.ActionsSimulate | backend/fsm.go:852-875 | validated actions succeed on both sides and leave the same game up to LastRaftIndex |
| Batch.FailedActionsStayHarmlessIff | backend/fsm.go:856-867 | a batch of actions that fails to decode half-way fails on both sides, but the job keeps the part before the failure: harmless exactly if that part appends nothing |
| Batch.RunSimulates | backend/fsm.go:790-922 | over a run without commands on a deleted game, outcomes and games agree at every step |
| Batch.DeletedRefuses | backend/fsm.go:815-822 | a command after a delete in the same batch fails, and succeeds in log order |
| Batch.ForcedSaveWinsInBatch | backend/fsm.go:824-850 | a forced save at the end of a batch succeeds and leaves the saved game, whatever the batch did before, deletes included |
| Batch.UnreadableAgreesIffNoSaves | backend/fsm.go:792-800 | on an unreadable game the two agree exactly when nothing is saved |
| Batch.BatchAgreesIff | backend/fsm.go:790-922 | regrouping changes neither an outcome nor a game exactly when: an unreadable game gets no save; a readable one has each delete last or followed by a save, and a closing delete finds the owner the batch started with |
| Batch.DeleteFreeBatchAgrees | backend/fsm.go:790-922 | in particular without deletes |
| Batch.OneOwnerBatchAgrees | backend/fsm.go:790-922 | and for a game that exists, with deletes, if only a save follows a delete and every payload names the owner it has |
| Batch.AppliedEntriesAreSkipped | backend/fsm.go:810-813 | entries the game has applied already succeed and change nothing on either side |
| Batch.ReplayedBatchAgreesIff | backend/fsm.go:810-813 | the condition for a batch that starts with such entries |
| Batch.BatchMatchesOrderIff | backend/fsm.go:571-684 | two replicas from the same game, one by batch and one in order, file the same results and end with the same game up to LastRaftIndex exactly under that condition |
| Replicas.BatchAgrees | backend/fsm.go:790-922 | a delete-free batch does what its entries do in order, whatever part of it the game has applied already |
| Replicas.CutAgrees | backend/fsm.go:571-684 | however a delete-free log is cut into batches, outcomes and game are those of the log order |
| Replicas.TwoCutsAgree | backend/fsm.go:571-684 | so two cuts of it agree with each other |
| Replicas.CutIsIdempotent | backend/fsm.go:810-813 | replaying the log onto what any cut of it left changes nothing, up to LastRaftIndex |
| Replicas.RoundsRecover | backend/raft.go:556-562 | after any number of rounds, each cutting any part of the log into its own batches, the log in batches leads where a crash-free run in other batches leads |
| Replicas.CutStaysModern | backend/validation.go:664-741 | batches that write no old version leave copies that load as the game of the run |
| Replicas.OwnOfFlat | backend/fsm.go:576-638 | a game's entries of the whole log are those of the batches, in order |
| Replicas.BatchThenFlush | backend/fsm.go:571-684 | a batch and any flushes after it, seen by every game: game, copy, file and the results filed for it |
| Replicas.ApplyInBatches | backend/fsm.go:571-684 | a whole log in batches with flushes anywhere: every game, its copy, its file and its results are those of its own batches |
| Replicas.TwoReplicas | backend/fsm.go:571-684 | two nodes cut the same log differently and flush at will: every game that both start from and that is not deleted gets the same results and ends the same, up to LastRaftIndex |
| Replicas.CrashOnceInBatches | backend/raft.go:556-562 | one crash after any part of the log in batches: the files still lead where the start led |
| Replicas.SurviveCrashesInBatches | backend/raft.go:556-562 | any number of crashes, every replay cut into batches of its own: every game that is not deleted, and for which no old version is written, ends as the log order says, up to LastRaftIndex |
| Sync.AfterIsLast | backend/websocket.go:711-725 | the base of a batch is its last occurrence in the log |
| Sync.WholeBatchEqualsRemainder | backend/websocket.go:736-809 | the trimmed batch is never used; re-applying the whole one gives the same game, thanks to the cap of 100 |
| Sync.AcceptedBatchLandsIff | backend/websocket.go:694-775 | an acknowledged batch keeps the old log as a prefix and lands whole right after its base, exactly when no action of it is dropped as a duplicate |
| Sync.RemainderIsFresh | backend/websocket.go:736-775 | distinct ids not used up to the base: the new part of the batch is unknown to the log |
| Sync.FreshBatchLands | backend/websocket.go:694-775 | so such a batch lands contiguously right after its base |
| Sync.AcceptedIsAcceptedLog | backend/websocket.go:694-840 | the log an accepted batch leaves depends on the log alone |
| Sync.AcceptsIffFollows | backend/websocket.go:703-775 | a batch is accepted exactly if it starts at the place its base names, the start or right after the last entry of that id, and repeats what the log has there; an unknown base never |
| Sync.AcceptedHolds | backend/websocket.go:694-840 | every action of an accepted batch is in the log afterwards |
| Hub.AuthorizedIffMayPost | backend/websocket.go:636-685 | the running level authorizes a batch exactly if, at every position, a metadata update is by an admin with no game started by the user at or before it, and any other action is by a writer or an admin or stands at or after such a start |
| Sync.MergeConcat | frontend/controllers/ActiveGameController.js:48-58 | taking deliveries one by one or in bursts comes to the same |
| Sync.MergeHolds | frontend/controllers/ActiveGameController.js:48-58 | a client's log is append-only, holds what it held and what it is sent, and never repeats an id |
| Hub.GameHub.Authorize | backend/websocket.go:636-685 | permission of a batch, by that rule on its positions |
| Hub.GameHub.FindRevision | backend/websocket.go:711-733 | finds the last entry with the base id, or none |
| Hub.GameHub.MatchPrefix | backend/websocket.go:736-765 | no conflict exactly when the batch repeats what follows the base as far as both go |
| Hub.GameHub.Reconcile | backend/websocket.go:703-775 | accepted exactly if the base is known and the batch repeats what follows it; wholly contained exactly when the log reaches past the batch |
| Hub.GameHub.Admit | backend/websocket.go:616-690 | admitted exactly if there are at most 100 actions, each well-formed, and each may be posted at its position |
| Hub.GameHub.Refresh | backend/websocket.go:694-701 | on a revision mismatch the game is read again |
| Hub.GameHub.Commit | backend/websocket.go:803-828 | the game becomes the extended one, saved if it changed |
| Hub.GameHub.ProcessAction | backend/websocket.go:616-841 | error exactly if size, form or permission fail; conflict, which names the head, or acknowledgement exactly by the stated conditions; acknowledged, every action of the batch is in the game's log, nothing held or stored before is lost from it, and what was added is on disk and broadcast; refused, the log is what it was |
| Hub.GameHub.Broadcast | backend/websocket.go:843-852 | every client with room gets the message, the others are dropped |
| Hub.GameHub.BroadcastAll | backend/websocket.go:527-529 | each client that stays got every message in order |
| Hub.GameHub.HandleHTTPAction | backend/websocket.go:511-534 | an acknowledged post is one step of the spectator protocol for every client that keeps up; a refused one sends nothing |
| Hub.GameHub.GetActionsSince | backend/websocket.go:952-968 | what follows the first occurrence of the revision |
| Hub.GameHub.HandleJoin | backend/websocket.go:473-509 | refused, in conflict with the head named, or caught up exactly by access, and by whether the revision is known |
| Spectator.SpectatorStaysOnCourse | frontend/controllers/ActiveGameController.js:48-58 | over every interleaving of posts and deliveries, client log plus what is on its way equals the server log with repeated ids dropped |
| Spectator.SpectatorConvergesIffDistinct | frontend/controllers/ActiveGameController.js:48-58 | it is the server log itself exactly when that log repeats no id |
| Spectator.StaysDistinctIffRecalled | backend/validation.go:651-664 | a log without repeats keeps none under a batch exactly if whatever id the batch repeats is still in the 100-entry window at its turn |
| Spectator.SpectatorConvergesIffRecalled | backend/validation.go:651-664 | so over every run of posts and deliveries the client converges on the server log exactly if that holds of each post as it is applied |
| Spectator.RepeatBeyondTheWindowDiverges | backend/validation.go:651-664 | and a post of the first of 101 entries at the head is accepted and appended, and never reaches the client |
| Spectator.DedupIsIdentityIffDistinct | frontend/controllers/ActiveGameController.js:48-51 | dropping repeats is the identity exactly on logs without repeats |
| Spectator.FreshKeepsDistinct | backend/websocket.go:694-840 | a fresh batch or an exact retry keeps the server log free of repeats |
| Spectator.SpectatorConverges | frontend/controllers/ActiveGameController.js:48-58 | so over every run of those the client converges on the server log |
| Spectator.JoinCatchesUpIff | backend/websocket.go:488-508 | a client holding a prefix of the server log is caught up by joining exactly when the prefix is not empty or the log is: an empty client is only acknowledged |
| History.EffectivelyUndone | frontend/game/historyManager.js:471-483 | the backward scan |
| History.GetEffectiveLog | frontend/game/historyManager.js:213-216 | the entries that count, in order |
| History.ScanMember | frontend/game/historyManager.js:471-483 | an id is undone exactly when a later UNDO that is not undone names it |
| History.ScanSolvesTheRule | frontend/reducer.js:154-173 | the scan solves the recursive rule: an entry is cancelled iff a later UNDO that is not cancelled names it |
| History.ScanIsTheOnlySolution | frontend/reducer.js:154-173 | every other solution agrees with it on every entry and keeps the same plays |
| History.AppendIsIncrementalIff | frontend/controllers/ActiveGameController.js:62-69 | appending a play extends the effective log, unless a live UNDO names it already |
| History.EmptyUndoIsVoid | frontend/game/historyManager.js:471-483 | an UNDO that names nothing cancels nothing |
| History.UndoneUndoRestores | frontend/reducer.js:154-190 | undoing an UNDO just appended restores the effective log of before, whatever the UNDO named |
| History.GetUndoTargetId | frontend/game/historyManager.js:429-442 | undo names the last entry that counts |
| History.GetRedoTargetId | frontend/game/historyManager.js:444-469 | redo walks back to the newest live UNDO of a play, unless a play that counts comes first |
| History.RedoTargetIsLast | frontend/game/historyManager.js:444-469 | which is the last of the UNDOs that can be redone |
| UndoStacks.PressedUndo | frontend/game/historyManager.js:485-493 | pressing undo appends the UNDO of that target, or nothing |
| UndoStacks.PressedRedo | frontend/game/historyManager.js:495-503 | pressing redo appends the UNDO of that UNDO, or nothing |
| UndoStacks.EffectiveIsDone | frontend/game/historyManager.js:213-216 | the effective log is the done stack |
| UndoStacks.TargetsAreTheTops | frontend/game/historyManager.js:429-469 | undo names the top of the done stack, redo the live UNDO of the top of the redo stack; each is void exactly on an empty stack |
| UndoStacks.UndoOfPlay | frontend/game/historyManager.js:471-483 | an UNDO of a play that counts cancels it and nothing else |
| UndoStacks.UndoOfUndo | frontend/game/historyManager.js:471-483 | an UNDO of a play's one live UNDO brings it back and nothing else |
| UndoStacks.GestureRefines | frontend/game/historyManager.js:429-503 | every gesture does to the log what two stacks would do |
| UndoStacks.SessionRefines | frontend/game/historyManager.js:429-503 | so does every session |
| UndoStacks.LogIsTwoStacks | frontend/game/historyManager.js:429-503 | from an empty log, whatever the user does: effective log, undo target and redo target are those of the two stacks |
| ActiveGame.ActiveGame.ComputeStateFromLog | frontend/reducer.js:97-191 | the state is the plays that count, reduced in order |
| ActiveGame.ActiveGame.Held | frontend/controllers/ActiveGameController.js:48-51 | whether the log holds the id |
| ActiveGame.ActiveGame.Dispatch | frontend/controllers/ActiveGameController.js:35-73 | the log takes the action once; the incremental state equals the recomputed one exactly if the action is in order, or has no effect |
| ActiveGame.ActiveGame.DispatchAll | frontend/controllers/ActiveGameController.js:35-73 | over every stream of actions in order, duplicates and UNDOs included, the game is the recomputed one |
| KeyRing.KeyRing.Rotate | backend/raft_crypto.go:58-66 | the new key is active and all former keys follow, newest first |
| KeyRing.KeyRing.SetKeys | backend/raft_crypto.go:50-55 | the ring is the given keys in the given order |
| KeyRing.KeyRing.Wipe | backend/raft_crypto.go:69-82 | no key is left |
| KeyRing.KeyRing.Encrypt | backend/raft_crypto.go:85-92 | fails only without an active key; what it seals opens again |
| KeyRing.KeyRing.Decrypt | backend/raft_crypto.go:95-122 | succeeds exactly when the sealing key is still in the ring |
| KeyLifetime.CutKeepsIff | backend/raft.go:347-368 | a collection keeps a key exactly if every key in front of it was made after the index needed |
| KeyLifetime.CollectedIsReadable | backend/raft.go:311-368 | collecting keys leaves every log entry, snapshot and stable value readable, if everything is covered: no key in front of the one that seals it was made at a lower index |
| KeyLifetime.CollectedIsSafe | backend/raft.go:285-417 | and keeps everything covered |
| KeyLifetime.RotationStaysCoveredIff | backend/raft.go:246-283 | so does a new key exactly if no listed snapshot is at or past the last index |
| KeyLifetime.NextIsSafeIff | backend/raft.go:246-417 | every step keeps everything covered (append, suffix cut, compaction, apply, snapshot, reap, stable write), a restart exactly if it is harmless: no newer name among the keys belongs to a lower index than what is sealed |
| KeyLifetime.RestartIsSafeIff | backend/raft.go:176-207 | a restart loses nothing at once and leaves everything covered exactly if it is harmless |
| KeyLifetime.KeysOutliveTheirData | backend/raft.go:285-417 | over every run whose restarts are harmless nothing stored loses its key |
| KeyLifetime.UncoveredEntryIsLost | backend/raft.go:347-368 | an entry that is not covered is lost in some run: compaction up to it, then a snapshot |
| KeyLifetime.UncoveredSnapshotIsLost | backend/raft.go:347-368 | so is such a snapshot: reaping of the older ones, one more entry, compaction, the next snapshot |
| KeyLifetime.LosesNothingIffCovered | backend/raft.go:285-417 | no run without another restart loses a key, exactly if everything is covered |
| KeyLifetime.RestartLosesNothingIff | backend/raft.go:176-207 | after a restart of a safe node nothing can be lost exactly if the restart was harmless |
| KeyLifetime.EncryptionIsTransparent | backend/raft_crypto.go:146-198 | from a safe node reading the log gives what was appended, through every step, any restart included |
| KeyLifetime.StableIsTransparent | backend/raft.go:290-309 | and reading a stable value gives what was last set, through every rotation, collection and restart |
| KeyLifetime.RunsAreTransparent | backend/raft.go:246-417 | over every run whose restarts are harmless, log and stable values read as if nothing had been encrypted |
| KeyLifetime.ReloadedIsNewestFirst | backend/raft.go:169-207 | a reload sorts the same keys by name, newest first |
| KeyLifetime.RestartKeepsOrderIff | backend/raft.go:176-207 | a reload keeps the order of the ring exactly if no key was made at a lower index than an older one |
| KeyLifetime.RotationsCanGetOutOfOrder | backend/raft.go:246-265 | a run of a new node leaves that order: a suffix is cut off below the last rotation, and the next key gets a lower index |
| KeyLifetime.ReorderedKeysMayBeLost | backend/raft.go:347-368 | there, a collection after a restart drops a key still in use |
| KeyLifetime.ReorderedKeysMayBeHarmless | backend/raft.go:347-368 | another disorder of the same kind loses nothing in any later run |
| KeyLifetime.SnapshotsOfTheSameIndexMayBeLost | backend/raft.go:329-368 | and two snapshots of the same index, with nothing applied between, can lose the older one's key |
| KeyManager.KeyManager.StoreLog | backend/raft_crypto.go:165-198 | storing an entry is the append step; empty data is not sealed |
| KeyManager.KeyManager.GetLog | backend/raft_crypto.go:146-163 | a readable log returns what was stored |
| KeyManager.KeyManager.StableSet | backend/raft_crypto.go:225-234 | a stable write is the step |
| KeyManager.KeyManager.StableGet | backend/raft_crypto.go:236-253 | opens with any key of the ring |
| KeyManager.KeyManager.ResealStable | backend/raft.go:290-309 | every value that can be opened reads as before and is sealed with the active key |
| KeyManager.KeyManager.FindMinNeeded | backend/raft.go:311-339 | the least of first index minus one and the snapshot indices, all of 64 bits for an empty log |
| KeyManager.KeyManager.Cutoff | backend/raft.go:347-368 | keeps the retired keys down to the first made at or before that index |
| KeyManager.KeyManager.Prune | backend/raft.go:386-414 | removes exactly the doomed keys from the ring |
| KeyManager.KeyManager.GarbageCollectKeys | backend/raft.go:285-417 | is the collection step, ring and key files alike; every stable value reads as before |
| KeyManager.KeyManager.RotateLogKey | backend/raft.go:246-283 | is the rotation step, collection included; on a readable node every stable value reads as before |
| KeyManager.KeyManager.LoadKeyRing | backend/raft.go:129-229 | is the reload step |
| KeyManager.SortedIsUnique | backend/raft.go:176-183 | there is one way to sort a set of key names |
| IndexStore.IndexStore.OnEvict | backend/user_index_store.go:96-146 | an evicted entry that is dirty is written, and is dirty no more |
| IndexStore.IndexStore.CacheRemove | backend/user_index_store.go:571-574 | leaving the cache loses no update |
| IndexStore.IndexStore.Get | backend/user_index_store.go:175-192 | answers as the plain map, changes no answer |
| IndexStore.IndexStore.Set | backend/user_index_store.go:194-199 | the key has the value, no other answer changes |
| IndexStore.IndexStore.Delete | backend/user_index_store.go:201-218 | the key has no index any more, no other answer changes |
| IndexStore.IndexStore.Restore | backend/user_index_store.go:882-885 | the key has the value, whatever was pending for it |
| IndexStore.IndexStore.SaveToDisk | backend/user_index_store.go:447-463 | writes a dirty entry, changes no answer |
| IndexStore.IndexStore.FlushAll | backend/user_index_store.go:351-384 | changes no answer, and afterwards the files alone give all of them |
| IndexStore.IndexStore.ListAll | backend/user_index_store.go:719-759 | files overlaid with what is not written yet: the plain map |
| IndexStore.IndexStore.Serve | backend/user_index_store.go:84-160 | for every capacity, eviction choice and sequence of requests, answers and final state are those of a plain map; dirty keys stay cached |
| IndexStore.EffectsConcat | backend/user_index_store.go:175-218 | requests in two parts come to the same |
| Auth.TeamLevelIff | backend/auth.go:153-179 | a user has admin on a team exactly as owner or in its admins; else write exactly in its scorekeepers; else read exactly in its spectators; else nothing |
| Auth.GameLevelIff | backend/auth.go:67-150 | each level on a game, exactly: the owner has all; else the game's role write or read decides; else the strongest list of either team that names the user; else the public role read |
| Auth.AnyoneReadsIff | backend/auth.go:144-149 | without a login nothing but reading, exactly under the public role read |
| Auth.AccessIsTheHighestIff | backend/auth.go:67-150 | the level never exceeds the highest that the documented rules give, and is that highest exactly unless a role on the game hides a stronger one of a team |
| Auth.RoleLowersIff | backend/auth.go:79-93 | giving a user a role on a game takes access away exactly from a team's admin, or, with read, from a team's scorekeeper |
| AccessIndex.NewGameReaches | backend/registry.go:339-395 | setting the entries of the users a game mentioned or mentions brings every user's index up to date with its new metadata |
| AccessIndex.NewTeamReaches | backend/registry.go:257-313 | the same for a team and its members |
| AccessIndex.OutsidersHaveNoEntry | backend/registry.go:351-358 | nobody outside the inverse index has an entry to clear |
| AccessIndex.SavingAGameLinksIt | backend/registry.go:397-399 | saving a live game links it to the teams it names and drops no link |
| AccessIndex.LinkedAfterIff | backend/registry.go:244-457 | only saving a deleted team again can leave a live game unlinked, and does so exactly when a live game still names that team and was not linked since |
| AccessIndex.LinkedAlways | backend/registry.go:244-487 | every other run keeps all links |
| AccessIndex.IndexNeverUnderstates | backend/auth.go:67-150 | with complete links no user is offered less by the indices than GetGameAccess grants, at any level |
| AccessIndex.IndexIsComplete | backend/registry.go:548-617 | the same over every run in which no deleted team is saved again |
| AccessIndex.RevivedTeamLosesItsGames | backend/registry.go:479-487 | otherwise a concrete run of four events shuts out a scorekeeper whom GetGameAccess lets write |
| AccessIndex.OvergrantsIff | backend/registry.go:548-575 | the indices admit a user whom GetGameAccess refuses exactly when the game gives the user the role admin, is open to anyone otherwise than by the public role read, or a team is linked that the authority does not ask |
| AccessIndex.DirectLevelIff | backend/registry.go:339-395 | the level of the index by name: owner and the role admin; write and read by role, or by the public role for those mentioned without one |
| AccessIndex.ExceedsIff | backend/registry.go:579-617 | at every level, the indices grant it to a user below it exactly by the role admin, a role that passes as public write, an unasked team, or an opening to anyone for a user without an entry |
| AccessIndex.TeamIndexIsTheAuthority | backend/auth.go:153-179 | for teams, index and authority coincide |
| Registry.Registry.UpdateUserGameAccess | backend/registry.go:427-444 | one user's entry for one game is set or removed, nothing else changes |
| Registry.Registry.UpdateUserTeamAccess | backend/registry.go:408-425 | the same for a team |
| Registry.Registry.AddTeamGame | backend/registry.go:446-457 | one link is added, none for the empty team id |
| Registry.Registry.MentionUsers | backend/registry.go:339-395 | after the removals and updates every user's index, and the inverse index, is the one of the new metadata |
| Registry.Registry.ForgetGame | backend/registry.go:329-337 | after clearing the mentioned users' entries they are those of a deleted game |
| Registry.Registry.IndexGame | backend/registry.go:325-406 | keeps every index equal to the direct-level function of the latest metadata |
| Registry.Registry.DeleteGame | backend/registry.go:470-477 | so does deleting a game |
| Registry.Registry.EnrolMembers | backend/registry.go:257-313 | the team counterpart of the updates |
| Registry.Registry.ForgetTeam | backend/registry.go:248-257 | a deleted team loses its members' entries and its links |
| Registry.Registry.IndexTeam | backend/registry.go:244-321 | so does saving a team |
| Registry.Registry.DeleteTeam | backend/registry.go:479-487 | so does deleting one |
| Registry.Registry.Serve | backend/registry.go:244-487 | over every run of updates and deletes, a deletion coming as a saved tombstone or as a delete, the indices are those of the metadata and links of that run |
| Registry.Registry.Rebuild | backend/registry.go:187-240 | indexing everything listed again gives the access maps of what was known and what is listed: what the stores no longer list stays indexed; every link of a listed game is restored |
| Registry.Registry.HasGameAccess | backend/registry.go:548-575 | true exactly when the indices grant the user at least read, and never for a deleted game |
| Registry.Registry.GetAccessLevel | backend/registry.go:579-617 | the strongest level the indices grant; none for a deleted game |
| Registry.Registry.HasTeamAccess | backend/registry.go:619-627 | true exactly when the team gives the user a level |
| Outs.CalculateInningOutsExclude | frontend/reducer.js:1156-1173 | the highest out number of the half-inning without the given cell |
| Outs.NumberRunners | frontend/reducer.js:818-846 | the runner loop of a play |
| Outs.ApplyPlayResult | frontend/reducer.js:620-869 | the out numbers after a play are those specified, for every event map |
| Outs.PlayNumbersOutsIff | frontend/reducer.js:695-719 | a play numbers its outs k+1, k+2, ... without gap or repeat, batter first on an air out and runners first otherwise, exactly when the inning does not run past three |
| Outs.RetiredIff | frontend/reducer.js:705-706 | exactly the runners marked out are retired |
| Outs.RunnersAreCapped | frontend/reducer.js:818-846 | no runner gets a number above three, whatever the map holds |
| Outs.ApplyRunnerAdvance | frontend/reducer.js:534-618 | the out numbers after a runner advance, with or without an active context; without one none is assigned |
| Outs.AdvanceBehindBatterIff | frontend/reducer.js:548-585 | runners first behind a batter already out: the numbers stay 1 to k without gap or repeat exactly when that batter was the latest out |
| Outs.ApplyRunnerBatchUpdate | frontend/reducer.js:308-391 | the out numbers after a batch of baserunning updates |
| Outs.RetiredByIff | frontend/reducer.js:361-388 | exactly the updates that are outs short of home retire someone |
| Outs.UpdatesNumberOuts | frontend/reducer.js:336-388 | it numbers its outs upwards from the outs of the other cells |
| Outs.ApplyStrikeout | frontend/reducer.js:1024-1033 | a third strike that is not dropped takes the next number |
| Outs.EventKeepsLadder | frontend/reducer.js:308-1036 | every event of these four kinds keeps the outs numbered 1 to k, each once |
| Outs.InningIsALadder | frontend/reducer.js:308-1036 | over a whole half-inning the numbers are 1 to the number of players retired, each once |
| Outs.EventIsCappedIff | frontend/reducer.js:534-618 | no event makes an out beyond the third, except runners first behind a batter already out, which does exactly if there are too many of them |
| Columns.StartColumns | frontend/reducer.js:900-905 | a new game has seven innings in a sound layout |
| Columns.ApplyAddInning | frontend/reducer.js:1038-1050 | appends the inning after the highest |
| Columns.AddInningKeepsLayout | frontend/reducer.js:1038-1050 | keeps the layout and adds exactly that inning |
| Columns.ApplyAddColumn | frontend/reducer.js:1052-1082 | adds the column with the next sub-index and sorts |
| Columns.AddColumnKeepsLayoutIff | frontend/reducer.js:1052-1082 | keeps the layout exactly when the column is shared or its inning exists |
| Columns.AddColumnAddsOne | frontend/reducer.js:1052-1082 | the column added is the one asked for, for the team asked for, one past the last of its inning, and nothing else changes |
| Columns.NextSubIsNext | frontend/reducer.js:1055-1070 | the sub-index of a new column is zero in a new inning, and otherwise one past one that is there |
| Columns.InsertKeepsLayoutIff | frontend/reducer.js:414-430 | the same for the column of a moved play |
| Columns.ApplyRemoveColumn | frontend/reducer.js:1084-1154 | is the specified removal |
| Columns.RemoveColumnTakesIff | frontend/reducer.js:1084-1154 | a column leaves a team's sight exactly when the team sees another one of that inning and recorded nothing in it; then exactly that team's cells in it go; the layout stays and the other team is not affected |
| Columns.RemoveColumnKeepsSight | frontend/reducer.js:1084-1154 | no recorded cell ends up out of its team's sight |
| Columns.MovePlayMoves | frontend/reducer.js:432-436 | a moved play leaves its cell for the target and touches no other |
| Columns.MovePlayLosesNothingIff | frontend/reducer.js:432-436 | moving a play loses nothing exactly when the target is another cell without recorded data |
| Columns.MovePlayKeepsSightIff | frontend/reducer.js:432-436 | it stays in its team's sight exactly when the target column is the team's |
| Columns.EditStaysTidy | frontend/reducer.js:414-1154 | every proper edit keeps the layout and keeps recorded cells in sight |
| Columns.TidyAlways | frontend/reducer.js:414-1154 | so does every run of them |
| Monitoring.RingBuffer.Add | backend/monitoring.go:118-132 | a sample of the current bucket replaces its value, any other takes the next slot and overwrites the oldest |
| Monitoring.RingBuffer.Ingest | backend/monitoring.go:168-194 | the same with the value combined as the metric asks |
| Monitoring.RingBuffer.GetPoints | backend/monitoring.go:135-144 | the used slots, oldest first |
| Monitoring.Series.Ingest | backend/monitoring.go:168-194 | every resolution takes the sample with its own combiner, whatever the others do |
| Monitoring.Series.IngestAll | backend/monitoring.go:168-194 | so does a run of samples: each ring rolls through all of them |
| Monitoring.RingIsTheEnd | backend/monitoring.go:118-132 | over every run of samples a ring holds the end of the unbounded list of buckets |
| Monitoring.AlignedIsAMultiple | backend/monitoring.go:119-121 | a sample belongs to the last multiple of the resolution at or before it |
| Monitoring.PointsAreTheLatestBuckets | backend/monitoring.go:135-144 | so the points read are the latest buckets, as many as there is room for, in order, and no others |
| Monitoring.BucketsAreFolds | backend/monitoring.go:168-194 | samples in order fill one bucket per time, in rising order, and each bucket is exactly its own samples combined in order |
| Monitoring.SumsAreConserved | backend/monitoring.go:179-180 | a summed metric loses no amount and counts none twice, in whatever order samples come |
| Monitoring.SummedBucketIsTheTotal | backend/monitoring.go:179-180 | a summed bucket is the total of its samples |
| Monitoring.RunningAverageIsMeanIff | backend/monitoring.go:184-188 | one more sample: the running average is the mean exactly if the minute of the bucket counts the samples, or the value equals the mean so far |
| Monitoring.AveragedBucketIsTheMean | backend/monitoring.go:184-188 | a bucket with one sample in each of its minutes holds their mean |
| Monitoring.MetricPointMeans | backend/monitoring.go:168-194 | every point read of a metric is the total of the samples of its time if the metric sums, else the last of them at one minute, else their mean if they came once a minute |
| Monitoring.Histogram.Add | backend/monitoring.go:56-65 | one observation goes to the bucket of its 50 milliseconds, the last one taking all above |
| Monitoring.Histogram.Merge | backend/monitoring.go:67-76 | bucket by bucket addition, also onto itself, and nothing for a missing histogram |
| Monitoring.MergingIsObservingAll | backend/monitoring.go:67-76 | merging two histograms is the histogram of all their observations |
| Monitoring.CountIsTheSumOfBuckets | backend/monitoring.go:56-65 | every observation is counted once and sits in exactly one bucket |
| Monitoring.BucketsCountTheirRanges | backend/monitoring.go:56-65 | each bucket counts the observations of its 50 milliseconds, the last those from five seconds on, and the sum is their total |
| Monitoring.MergedBucketIsTheHistogram | backend/monitoring.go:213-233 | a latency bucket is the histogram of everything observed in its time |
| Monitoring.NewMetricSeries | backend/monitoring.go:153-194 | a new metric has the default resolutions, all blank, with the combiner of its aggregation, the finest one apart |
| Monitoring.NewHistogramSeries | backend/monitoring.go:202-233 | a new latency series has them too, and merges in every resolution |

## Left out

- Teams in the state machine (`TeamStore`, `processTeamJob`), system commands and entries that do not decode: the game
  side without the log, or no game at all.
- `PurgeGame`, `RestoreGame` and purging of old tombstones.
- Rosters, substitutes, `DeletedAt` and other timestamps.
- Stored log entries that do not decode: the duplicate scan passes them over.
- Aliasing of games: every load decodes a fresh copy, so a game is a value here. Index entries are values too, where the
  program changes the cached object and stores it again in one step.
- The Raft path of the hub, forwarding to the leader, saves and broadcasts through the hub, load requests, and conflict
  throttling; the registry update at the end of a post is a separate module.
- Payload checks of actions: a parameter of the hub.
- A client's own pending actions and their retries: the client modelled here only watches.
- The first pass of `computeStateFromLog` over `validMap`, whose result is not used.
- The reducer for single actions as seen by the history: a parameter there. In the scoresheet modules: bases, outcomes,
  pitch counts, the pitch log, runs batted in, substitutions, overrides and imports.
- Recency in the LRU caches: any entry may be evicted. The registry's metadata caches are plain maps, which their reload
  from the stores amounts to.
- Registry counts, listing and search.
- Consensus, transport, encryption itself, key-file migration, failing storage, concurrent access.
- Which metrics are fed, and how they are served: `backend/monitoring.go` is modelled from a series down. Counters do not
  wrap around, values are reals.
- Monitoring.PointsAreTheLatestBuckets: asks for times of at least one resolution, since time 0 marks an empty slot.
- Replicas.TwoReplicas: for games that no entry of the log deletes; Batch.BatchAgreesIff says what one batch does with
  deletes.
- Replicas.SurviveCrashesInBatches: likewise; Recovery.SurviveCrashes covers deletes, one command at a time.
