/** Applying a batch of committed commands regrouped by game (backend/fsm.go, ApplyBatch), against applying them
    one at a time in log order.

    Job order is the iteration order of a Go map and the jobs run concurrently; here the next job is any one
    left, and a job runs to its end. */
module Batch {
  import opened Wrappers
  import opened Actions
  import opened GameStore
  import opened Fsm
  import opened Recovery

  /** Where a job stands: the game it holds in memory, whether its last word was a delete, whether it must save. */
  datatype Job = Job(game: Game, deleted: bool, dirty: bool)

  ghost function JobStep(job: Job, id: Id, e: Entry): (Job, Outcome) {
    if 0 < e.index <= job.game.lastRaftIndex then (job, Done)
    else if job.deleted && !e.cmd.SaveGame? then (job, Failed(DeletedGame))
    else
      var g := if job.deleted then NewGame(id) else job.game;
      match e.cmd
      case SaveGame(_, data, force) =>
        if data.None? then (Job(g, false, job.dirty), Failed(BadGameData))
        else if !force && !ExtendsHistory(g.log, data.value.log) then (Job(g, false, job.dirty), Failed(Conflict))
        else (Job(Repaired(data.value.(lastRaftIndex := e.index)), false, true), Done)
      case ApplyActions(_, _, _) =>
        var next := Extend(g, DecodedPrefix(Raws(e.cmd)));
        if !Decodes(Raws(e.cmd)) then (Job(next, false, job.dirty), Failed(BadAction))
        else (Job(next.(lastRaftIndex := e.index), false, job.dirty || next.log != g.log), Done)
      case DeleteGame(_) => (Job(g.(lastRaftIndex := e.index), true, true), Done)
  }

  /** The command was applied by this step, and asks for the game to be on disk. */
  ghost predicate Forces(job: Job, id: Id, e: Entry) {
    !(0 < e.index <= job.game.lastRaftIndex) && JobStep(job, id, e).1 == Done && (e.cmd.SaveGame? || e.cmd.DeleteGame?)
  }

  ghost predicate AnyForces(job: Job, id: Id, entries: seq<Entry>) {
    exists k :: 0 <= k < |entries| && Forces(JobRun(job, id, entries[..k]).0, id, entries[k])
  }

  ghost function JobRun(job: Job, id: Id, entries: seq<Entry>): (r: (Job, seq<Outcome>))
    ensures |r.1| == |entries|
    decreases |entries|
  {
    if entries == [] then (job, [])
    else
      var (next, outcome) := JobStep(job, id, entries[0]);
      var (end, outcomes) := JobRun(next, id, entries[1..]);
      (end, [outcome] + outcomes)
  }

  /** What LoadGame answers once a job has saved, or deleted, or had nothing to do. */
  ghost function Settled(stored: Loaded, id: Id, job: Job): Loaded {
    if !job.dirty then stored
    else if !job.deleted then Present(Normalized(job.game))
    else if stored.Present? then Present(Tombstone(id, stored.game.details.ownerId))
    else stored
  }

  ghost function StartJob(stored: Loaded, id: Id): Job {
    Job(if stored.Present? then stored.game else NewGame(id), false, false)
  }

  /** One game's job: a game that cannot be read fails every command. */
  ghost function RunJob(stored: Loaded, id: Id, entries: seq<Entry>): (Loaded, seq<Outcome>) {
    if stored.Unreadable? then (stored, seq(|entries|, _ => Failed(UnreadableGame)))
    else
      var (end, outcomes) := JobRun(StartJob(stored, id), id, entries);
      (Settled(stored, id, end), outcomes)
  }

  /** The copy the store goes by once a job has been stored. */
  ghost function CopyLeft(before: Option<Game>, stored: Loaded, id: Id, job: Job): Option<Game> {
    if !job.dirty then before
    else if !job.deleted then Some(job.game)
    else if stored.Present? then Some(Tombstone(id, stored.game.details.ownerId))
    else before
  }

  ghost function JobCopy(before: Option<Game>, stored: Loaded, id: Id, entries: seq<Entry>): Option<Game> {
    if stored.Unreadable? then before else CopyLeft(before, stored, id, JobRun(StartJob(stored, id), id, entries).0)
  }

  /** The same commands one at a time. */
  ghost function RunInOrder(current: Loaded, entries: seq<Entry>): (r: (Loaded, seq<Outcome>))
    ensures |r.1| == |entries|
    decreases |entries|
  {
    if entries == [] then (current, [])
    else
      var (end, outcomes) := RunInOrder(Step(current, entries[0].cmd, entries[0].index), entries[1..]);
      (end, [Decide(current, entries[0].cmd, entries[0].index).1] + outcomes)
  }

  function Unindexed(current: Loaded): Loaded {
    if current.Present? then Present(current.game.(lastRaftIndex := 0)) else current
  }

  /** Equal up to LastRaftIndex. */
  predicate Same(a: Loaded, b: Loaded) {
    Unindexed(a) == Unindexed(b)
  }

  function OwnerOf(current: Loaded): Option<UserId> {
    if current.Present? then Some(current.game.details.ownerId) else None
  }

  /** An answer of LoadGame for `id`. */
  ghost predicate Answer(stored: Loaded, id: Id) {
    stored.Present? ==> stored.game.id == id && Normalized(stored.game) == stored.game
  }

  /** One game's share of a batch, none of it applied before. */
  ghost predicate Live(stored: Loaded, id: Id, entries: seq<Entry>) {
    && Ordered(entries) && Ahead(stored, entries) && Answer(stored, id)
    && forall e :: e in entries ==> e.cmd.id == id && Validated(e.cmd)
  }

  /** A delete is followed by nothing or by a save. */
  predicate NothingOnDeleted(entries: seq<Entry>) {
    forall k :: 0 <= k < |entries| - 1 && entries[k].cmd.DeleteGame? ==> entries[k + 1].cmd.SaveGame?
  }

  predicate NoSaves(entries: seq<Entry>) {
    forall k :: 0 <= k < |entries| ==> !entries[k].cmd.SaveGame?
  }

  /** A batch that closes with a delete finds the owner it started with. */
  ghost predicate OwnerKept(stored: Loaded, entries: seq<Entry>) {
    (|entries| > 0 && entries[|entries| - 1].cmd.DeleteGame?)
    ==> OwnerOf(RunInOrder(stored, entries[..|entries| - 1]).0) == OwnerOf(stored)
  }

  ghost predicate Agrees(stored: Loaded, id: Id, entries: seq<Entry>) {
    && RunJob(stored, id, entries).1 == RunInOrder(stored, entries).1
    && Same(RunJob(stored, id, entries).0, RunInOrder(stored, entries).0)
  }

  // ---- Simulation ----

  /** The job and the one-at-a-time run hold the same game. */
  ghost predicate Simulates(job: Job, id: Id, current: Loaded, stored: Loaded) {
    && !current.Unreadable?
    && (!job.deleted ==>
          if current.Present? then Same(Present(Normalized(job.game)), current) && (job.dirty || Same(stored, current))
          else job.game == NewGame(id) && !job.dirty && stored.Absent?)
    && (job.deleted ==> job.dirty && (current.Present? ==> current.game == Tombstone(id, current.game.details.ownerId)))
  }

  lemma {:induction false} ExtendSame(g: Game, h: Game, actions: seq<Action>)
    requires Same(Present(Normalized(g)), Present(Normalized(h)))
    ensures Same(Present(Normalized(Extend(g, actions))), Present(Normalized(Extend(h, actions))))
    ensures |g.log| <= |Extend(g, actions).log|
    decreases |actions|
  {
    if actions != [] {
      AppliedSame(g, h, actions[0]);
      ExtendSame(Applied(g, actions[0]), Applied(h, actions[0]), actions[1..]);
    }
  }

  lemma AppliedSame(g: Game, h: Game, a: Action)
    requires Same(Present(Normalized(g)), Present(Normalized(h)))
    ensures Same(Present(Normalized(Applied(g, a))), Present(Normalized(Applied(h, a))))
  {
    var g0, h0 := Unindexed(Present(Normalized(g))).game, Unindexed(Present(Normalized(h))).game;
    assert g0.log == g.log == h.log && g0.details == g.details == h.details;
  }

  lemma Restamped(g: Game, index: nat)
    ensures Same(Present(Normalized(g.(lastRaftIndex := index))), Present(Normalized(g)))
  {
  }

  lemma ActionsSimulate(job: Job, id: Id, current: Loaded, stored: Loaded, e: Entry)
    requires Simulates(job, id, current, stored) && !job.deleted && e.cmd.ApplyActions? && e.cmd.id == id
    requires Validated(e.cmd) && job.game.lastRaftIndex < e.index && Last(current) < e.index
    ensures JobStep(job, id, e).1 == Decide(current, e.cmd, e.index).1 == Done
    ensures Simulates(JobStep(job, id, e).0, id, Step(current, e.cmd, e.index), stored)
    ensures !JobStep(job, id, e).0.deleted
  {
    var actions := DecodedPrefix(Raws(e.cmd));
    assert Raws(e.cmd) != [] && Raws(e.cmd)[0].Decoded?;
    var g := if current.Present? then current.game else NewGame(id);
    ExtendSame(job.game, g, actions);
    NoMetadataWithoutAppend(job.game, actions);
    NoMetadataWithoutAppend(g, actions);
    var x, y := Extend(job.game, actions), Extend(g, actions);
    Restamped(x, e.index);
    Restamped(y, e.index);
    assert Same(Present(Normalized(x.(lastRaftIndex := e.index))), Present(Normalized(y.(lastRaftIndex := e.index))));
    if current.Present? {
      assert Unindexed(Present(Normalized(job.game))).game.log == job.game.log;
      assert Unindexed(current).game.log == g.log;
      if y.log == g.log {
        assert Same(Present(Normalized(y)), current);
      }
    }
  }

  /** Why validation matters: a batch of actions that fails to decode half-way fails on both sides, but the job goes
      on with the half it appended. The two stay together exactly if that half held nothing new. */
  lemma FailedActionsStayHarmlessIff(job: Job, id: Id, current: Loaded, stored: Loaded, e: Entry)
    requires Simulates(job, id, current, stored) && !job.deleted && e.cmd.ApplyActions? && e.cmd.id == id
    requires !Decodes(Raws(e.cmd)) && job.game.lastRaftIndex < e.index && Last(current) < e.index
    ensures JobStep(job, id, e).1 == Decide(current, e.cmd, e.index).1 == Failed(BadAction)
    ensures Step(current, e.cmd, e.index) == current
    ensures Simulates(JobStep(job, id, e).0, id, current, stored)
       <==> Extend(job.game, DecodedPrefix(Raws(e.cmd))).log == job.game.log
  {
    var next := Extend(job.game, DecodedPrefix(Raws(e.cmd)));
    NoMetadataWithoutAppend(job.game, DecodedPrefix(Raws(e.cmd)));
    if current.Present? && Same(Present(Normalized(next)), current) {
      assert Unindexed(Present(Normalized(next))).game.log == next.log;
      assert Unindexed(Present(Normalized(job.game))).game.log == job.game.log;
    }
  }

  lemma StepSimulates(job: Job, id: Id, current: Loaded, stored: Loaded, e: Entry)
    requires Simulates(job, id, current, stored) && e.cmd.id == id && Validated(e.cmd)
    requires job.game.lastRaftIndex < e.index && Last(current) < e.index
    requires job.deleted ==> e.cmd.SaveGame?
    ensures JobStep(job, id, e).1 == Decide(current, e.cmd, e.index).1
    ensures Simulates(JobStep(job, id, e).0, id, Step(current, e.cmd, e.index), stored)
    ensures JobStep(job, id, e).0.deleted == e.cmd.DeleteGame?
  {
    if e.cmd.ApplyActions? {
      ActionsSimulate(job, id, current, stored, e);
    } else if e.cmd.SaveGame? && !job.deleted && current.Present? {
      assert Unindexed(Present(Normalized(job.game))).game.log == job.game.log;
      assert Unindexed(current).game.log == current.game.log;
    }
  }

  lemma IndexAfterStep(job: Job, id: Id, current: Loaded, e: Entry)
    requires job.game.lastRaftIndex < e.index && Last(current) < e.index
    ensures JobStep(job, id, e).0.game.lastRaftIndex <= e.index
    ensures Last(Step(current, e.cmd, e.index)) <= e.index
    ensures !current.Unreadable? ==> !Step(current, e.cmd, e.index).Unreadable?
  {
    if e.cmd.ApplyActions? {
      ExtendKeepsIndex(if job.deleted then NewGame(id) else job.game, DecodedPrefix(Raws(e.cmd)));
    }
  }

  /** All that a run needs of the entries still to come. */
  ghost predicate Pending(job: Job, id: Id, current: Loaded, entries: seq<Entry>) {
    && Ordered(entries) && Ahead(current, entries)
    && (forall k :: 0 <= k < |entries| ==> job.game.lastRaftIndex < entries[k].index)
    && (forall e :: e in entries ==> e.cmd.id == id && Validated(e.cmd))
  }

  lemma StillPending(job: Job, id: Id, current: Loaded, entries: seq<Entry>)
    requires Pending(job, id, current, entries) && entries != []
    ensures Pending(JobStep(job, id, entries[0]).0, id, Step(current, entries[0].cmd, entries[0].index), entries[1..])
    ensures !current.Unreadable? ==> !Step(current, entries[0].cmd, entries[0].index).Unreadable?
  {
    hide JobStep, Step;
    IndexAfterStep(job, id, current, entries[0]);
  }

  lemma {:induction false} RunSimulates(job: Job, id: Id, current: Loaded, stored: Loaded, entries: seq<Entry>)
    requires Simulates(job, id, current, stored) && Pending(job, id, current, entries)
    requires NothingOnDeleted(entries)
    requires job.deleted && entries != [] ==> entries[0].cmd.SaveGame?
    ensures JobRun(job, id, entries).1 == RunInOrder(current, entries).1
    ensures Simulates(JobRun(job, id, entries).0, id, RunInOrder(current, entries).0, stored)
    ensures JobRun(job, id, entries).0.deleted
        == if entries == [] then job.deleted else entries[|entries| - 1].cmd.DeleteGame?
    decreases |entries|
  {
    hide JobStep, Step, Decide, Simulates, NothingOnDeleted;
    if entries != [] {
      var e, rest := entries[0], entries[1..];
      StillPending(job, id, current, entries);
      StepSimulates(job, id, current, stored, e);
      NothingOnDeletedLater(entries);
      hide Pending;
      RunSimulates(JobStep(job, id, e).0, id, Step(current, e.cmd, e.index), stored, rest);
    }
  }

  lemma NothingOnDeletedLater(entries: seq<Entry>)
    requires entries != [] && NothingOnDeleted(entries)
    ensures NothingOnDeleted(entries[1..])
    ensures |entries| > 1 && entries[0].cmd.DeleteGame? ==> entries[1].cmd.SaveGame?
  {
    var rest := entries[1..];
    forall k | 0 <= k < |rest| - 1 && rest[k].cmd.DeleteGame?
      ensures rest[k + 1].cmd.SaveGame?
    {
      assert entries[k + 1].cmd.DeleteGame?;
    }
  }

  // ---- When the batch is the log order ----

  lemma {:induction false} InOrderSnoc(current: Loaded, entries: seq<Entry>, e: Entry)
    ensures RunInOrder(current, entries + [e]).0 == Step(RunInOrder(current, entries).0, e.cmd, e.index)
    ensures RunInOrder(current, entries + [e]).1
         == RunInOrder(current, entries).1 + [Decide(RunInOrder(current, entries).0, e.cmd, e.index).1]
    decreases |entries|
  {
    hide Step, Decide;
    if entries == [] {
      assert [e][1..] == [];
    } else {
      assert (entries + [e])[1..] == entries[1..] + [e];
      InOrderSnoc(Step(current, entries[0].cmd, entries[0].index), entries[1..], e);
    }
  }

  /** A delete keeps the owner of what it deletes. */
  lemma ClosingDeleteKeepsOwner(stored: Loaded, entries: seq<Entry>)
    requires |entries| > 0 && entries[|entries| - 1].cmd.DeleteGame?
    ensures var n := |entries| - 1;
            OwnerOf(RunInOrder(stored, entries).0) == OwnerOf(RunInOrder(stored, entries[..n]).0)
  {
    var n := |entries| - 1;
    assert entries == entries[..n] + [entries[n]];
    InOrderSnoc(stored, entries[..n], entries[n]);
  }

  lemma ReadableCommandsSucceed(current: Loaded, cmd: Command, index: nat)
    requires !current.Unreadable? && Last(current) < index && Validated(cmd) && !cmd.SaveGame?
    ensures Decide(current, cmd, index).1 == Done
  {
  }

  /** In a batch a command on a deleted game fails; in log order it succeeds on the tombstone. */
  lemma {:induction false} DeletedRefuses(job: Job, id: Id, current: Loaded, entries: seq<Entry>, k: nat)
    requires !current.Unreadable? && Pending(job, id, current, entries)
    requires k < |entries| - 1 && entries[k].cmd.DeleteGame? && !entries[k + 1].cmd.SaveGame?
    ensures JobRun(job, id, entries).1 != RunInOrder(current, entries).1
    decreases |entries|
  {
    hide Decide, Step;
    var e, rest := entries[0], entries[1..];
    StillPending(job, id, current, entries);
    var job1, current1 := JobStep(job, id, e).0, Step(current, e.cmd, e.index);
    assert JobRun(job, id, entries).1[1..] == JobRun(job1, id, rest).1;
    assert RunInOrder(current, entries).1[1..] == RunInOrder(current1, rest).1;
    if k > 0 {
      DeletedRefuses(job1, id, current1, rest, k - 1);
    } else {
      ReadableCommandsSucceed(current, e.cmd, e.index);
      ReadableCommandsSucceed(current1, rest[0].cmd, rest[0].index);
      assert RunInOrder(current, entries).1[0] == Done && RunInOrder(current1, rest).1[0] == Done;
      assert JobRun(job, id, entries).1[0] == JobStep(job, id, e).1;
      assert JobRun(job1, id, rest).1[0] == JobStep(job1, id, rest[0]).1;
    }
  }

  lemma {:induction false} UnreadableAgreesIffNoSaves(id: Id, entries: seq<Entry>)
    requires Live(Unreadable, id, entries)
    ensures NoSaves(entries) ==> RunInOrder(Unreadable, entries).0 == Unreadable
    ensures RunInOrder(Unreadable, entries).1 == RunJob(Unreadable, id, entries).1 <==> NoSaves(entries)
    decreases |entries|
  {
    if entries != [] {
      var e, rest := entries[0], entries[1..];
      var inOrder, inJob := RunInOrder(Unreadable, entries).1, RunJob(Unreadable, id, entries).1;
      assert inOrder[0] == Decide(Unreadable, e.cmd, e.index).1 && inJob[0] == Failed(UnreadableGame);
      if !e.cmd.SaveGame? {
        assert Live(Unreadable, id, rest);
        UnreadableAgreesIffNoSaves(id, rest);
        assert inOrder[1..] == RunInOrder(Unreadable, rest).1 && inJob[1..] == RunJob(Unreadable, id, rest).1;
        assert inOrder == [inOrder[0]] + inOrder[1..] && inJob == [inJob[0]] + inJob[1..];
        assert NoSaves(entries) <==> NoSaves(rest) by {
          assert forall k :: 0 <= k < |rest| ==> rest[k] == entries[k + 1];
        }
      }
    }
  }

  /** Regrouping changes nothing, neither an outcome nor a game, exactly when: a game that cannot be read gets no
      save; otherwise nothing but a save follows a delete, and a closing delete finds the stored owner. */
  lemma BatchAgreesIff(stored: Loaded, id: Id, entries: seq<Entry>)
    requires Live(stored, id, entries)
    ensures Agrees(stored, id, entries)
       <==> if stored.Unreadable? then NoSaves(entries) else NothingOnDeleted(entries) && OwnerKept(stored, entries)
  {
    hide JobStep, Step, Decide;
    if stored.Unreadable? {
      UnreadableAgreesIffNoSaves(id, entries);
    } else if NothingOnDeleted(entries) {
      var job := StartJob(stored, id);
      assert Simulates(job, id, stored, stored) && Pending(job, id, stored, entries);
      RunSimulates(job, id, stored, stored, entries);
      var end, current := JobRun(job, id, entries).0, RunInOrder(stored, entries).0;
      if end.deleted {
        ClosingDeleteKeepsOwner(stored, entries);
        TombstonesDifferByOwner(id, end, current, stored);
      }
    } else {
      var k :| 0 <= k < |entries| - 1 && entries[k].cmd.DeleteGame? && !entries[k + 1].cmd.SaveGame?;
      DeletedRefuses(StartJob(stored, id), id, stored, entries, k);
    }
  }

  lemma TombstonesDifferByOwner(id: Id, job: Job, current: Loaded, stored: Loaded)
    requires Simulates(job, id, current, stored) && job.deleted && !stored.Unreadable?
    ensures Same(Settled(stored, id, job), current) <==> OwnerOf(current) == OwnerOf(stored)
  {
    if stored.Present? && current.Present? {
      var t := Tombstone(id, stored.game.details.ownerId);
      assert Unindexed(Present(t)) == Present(t) && Unindexed(current) == current;
    }
  }

  /** Without deletes, and with a readable game, regrouping never changes anything. */
  lemma DeleteFreeBatchAgrees(stored: Loaded, id: Id, entries: seq<Entry>)
    requires Live(stored, id, entries) && !stored.Unreadable?
    requires forall k :: 0 <= k < |entries| ==> !entries[k].cmd.DeleteGame?
    ensures Agrees(stored, id, entries)
  {
    BatchAgreesIff(stored, id, entries);
  }

  lemma {:induction false} InOrderIsRun(current: Loaded, id: Id, entries: seq<Entry>)
    requires forall e :: e in entries ==> e.cmd.id == id
    ensures RunInOrder(current, entries).0 == Run(current, id, entries)
    decreases |entries|
  {
    hide Step;
    if entries != [] {
      assert entries[0] in entries;
      InOrderIsRun(Step(current, entries[0].cmd, entries[0].index), id, entries[1..]);
    }
  }

  /** Regrouping a present game's entries changes nothing if only a save follows a delete and every payload names the
      owner the game has. */
  lemma OneOwnerBatchAgrees(stored: Loaded, id: Id, entries: seq<Entry>)
    requires Live(stored, id, entries) && stored.Present? && NothingOnDeleted(entries)
    requires forall e :: e in entries ==> NamesOwner(e.cmd, stored.game.details.ownerId)
    ensures Agrees(stored, id, entries)
  {
    hide Agrees, RunInOrder, Run;
    var owner := stored.game.details.ownerId;
    if entries != [] {
      var n := |entries| - 1;
      RunKeepsOwner(stored, id, entries, n, owner);
      InOrderIsRun(stored, id, entries[..n]);
      PresentStaysPresent(stored, id, entries[..n]);
    }
    BatchAgreesIff(stored, id, entries);
  }

  lemma {:induction false} PresentStaysPresent(current: Loaded, id: Id, entries: seq<Entry>)
    requires current.Present?
    ensures Run(current, id, entries).Present?
    decreases |entries|
  {
    if entries != [] {
      PresentStaysPresent(StepIfMine(current, id, entries[0]), id, entries[1..]);
    }
  }

  ghost predicate AlreadyApplied(stored: Loaded, id: Id, entries: seq<Entry>) {
    forall e :: e in entries ==> e.cmd.id == id && Validated(e.cmd) && 0 < e.index <= Last(stored)
  }

  lemma AppliedEntryIsSkipped(job: Job, stored: Loaded, id: Id, e: Entry)
    requires stored.Present? && job.game == stored.game && AlreadyApplied(stored, id, [e])
    ensures JobStep(job, id, e) == (job, Done)
    ensures Step(stored, e.cmd, e.index) == stored && Decide(stored, e.cmd, e.index).1 == Done
  {
    assert e in [e];
  }

  /** Entries the game has already applied succeed and change nothing, on both sides. */
  lemma {:induction false} AppliedEntriesAreSkipped(job: Job, stored: Loaded, id: Id, past: seq<Entry>,
                                                    live: seq<Entry>)
    requires stored.Present? && job.game == stored.game && AlreadyApplied(stored, id, past)
    ensures JobRun(job, id, past + live).0 == JobRun(job, id, live).0
    ensures RunInOrder(stored, past + live).0 == RunInOrder(stored, live).0
    ensures JobRun(job, id, past + live).1 == RunInOrder(stored, past + live).1
       <==> JobRun(job, id, live).1 == RunInOrder(stored, live).1
    decreases |past|
  {
    hide JobStep, Step, Decide;
    if past == [] {
      assert past + live == live;
    } else {
      AppliedEntryIsSkipped(job, stored, id, past[0]);
      assert past[0] in past && (past + live)[0] == past[0] && (past + live)[1..] == past[1..] + live;
      AppliedEntriesAreSkipped(job, stored, id, past[1..], live);
      var inJob, inOrder := JobRun(job, id, past + live).1, RunInOrder(stored, past + live).1;
      assert inJob[0] == inOrder[0] == Done;
      assert inJob == [Done] + inJob[1..] && inOrder == [Done] + inOrder[1..];
    }
  }

  /** The same for a batch that starts with entries already applied. */
  lemma ReplayedBatchAgreesIff(stored: Loaded, id: Id, past: seq<Entry>, live: seq<Entry>)
    requires AlreadyApplied(stored, id, past) && Live(stored, id, live)
    ensures Agrees(stored, id, past + live)
       <==> if stored.Unreadable? then NoSaves(live) else NothingOnDeleted(live) && OwnerKept(stored, live)
  {
    hide JobStep, Step, Decide;
    BatchAgreesIff(stored, id, live);
    if past == [] {
      assert past + live == live;
    } else {
      assert past[0] in past;
      AppliedEntriesAreSkipped(StartJob(stored, id), stored, id, past, live);
    }
  }

  // ---- The two implementations ----

  /** The positions below `n` of the entries for one game, in log order. */
  function Positions(entries: seq<Entry>, id: Id, n: nat): seq<nat>
    requires n <= |entries|
  {
    if n == 0 then []
    else Positions(entries, id, n - 1) + if entries[n - 1].cmd.id == id then [n - 1] else []
  }

  /** One game's share of the first `n` entries. */
  function Mine(entries: seq<Entry>, id: Id, n: nat): seq<Entry>
    requires n <= |entries|
  {
    if n == 0 then []
    else Mine(entries, id, n - 1) + if entries[n - 1].cmd.id == id then [entries[n - 1]] else []
  }

  lemma {:induction false} PositionsAreExact(entries: seq<Entry>, id: Id, n: nat)
    requires n <= |entries|
    ensures var ps, mine := Positions(entries, id, n), Mine(entries, id, n);
            && |mine| == |ps|
            && (forall k :: 0 <= k < |ps| ==> ps[k] < n && mine[k] == entries[ps[k]] && mine[k].cmd.id == id)
            && (forall j, k :: 0 <= j < k < |ps| ==> ps[j] < ps[k])
            && (forall i :: 0 <= i < n && entries[i].cmd.id == id ==> i in ps)
  {
    if n > 0 {
      PositionsAreExact(entries, id, n - 1);
    }
  }

  lemma {:induction false} JobSnoc(job: Job, id: Id, entries: seq<Entry>, e: Entry)
    ensures JobRun(job, id, entries + [e]).0 == JobStep(JobRun(job, id, entries).0, id, e).0
    ensures JobRun(job, id, entries + [e]).1
            == JobRun(job, id, entries).1 + [JobStep(JobRun(job, id, entries).0, id, e).1]
    decreases |entries|
  {
    hide JobStep;
    if entries == [] {
      assert [e][1..] == [];
    } else {
      assert (entries + [e])[1..] == entries[1..] + [e];
      JobSnoc(JobStep(job, id, entries[0]).0, id, entries[1..], e);
    }
  }

  lemma {:induction false} JobIndexBounds(job: Job, id: Id, entries: seq<Entry>, bound: nat)
    requires job.game.lastRaftIndex < bound && forall k :: 0 <= k < |entries| ==> entries[k].index < bound
    ensures JobRun(job, id, entries).0.game.lastRaftIndex < bound
    decreases |entries|
  {
    hide JobStep;
    if entries != [] {
      JobStepIndex(job, id, entries[0]);
      JobIndexBounds(JobStep(job, id, entries[0]).0, id, entries[1..], bound);
    }
  }

  lemma JobStepIndex(job: Job, id: Id, e: Entry)
    ensures JobStep(job, id, e).0.game.lastRaftIndex in {job.game.lastRaftIndex, e.index, 0}
  {
    if e.cmd.ApplyActions? {
      ExtendKeepsIndex(job.game, DecodedPrefix(Raws(e.cmd)));
    }
  }

  /** A forced save wins over whatever the entries before it in the batch made of the game, a delete included. */
  lemma ForcedSaveWinsInBatch(stored: Loaded, id: Id, entries: seq<Entry>, e: Entry)
    requires !stored.Unreadable? && Last(stored) < e.index && IsSave(id, e) && e.cmd.force
    requires forall k :: 0 <= k < |entries| ==> entries[k].index < e.index
    ensures RunJob(stored, id, entries + [e]).1 == RunJob(stored, id, entries).1 + [Done]
    ensures Shown(e.cmd.data.value, e.index, RunJob(stored, id, entries + [e]).0)
  {
    hide JobRun;
    JobIndexBounds(StartJob(stored, id), id, entries, e.index);
    JobSnoc(StartJob(stored, id), id, entries, e);
  }

  /** One command of a job, in memory. */
  method ApplyInMemory(game: Game, isDeleted: bool, isDirty: bool, id: Id, e: Entry)
    returns (g: Game, deleted: bool, dirty: bool, toDisk: bool, outcome: Outcome)
    requires e.cmd.id == id && WellKeyed(e.cmd) && game.id == id
    ensures (Job(g, deleted, dirty), outcome) == JobStep(Job(game, isDeleted, isDirty), id, e)
    ensures g.id == id && toDisk == Forces(Job(game, isDeleted, isDirty), id, e)
    ensures (isDirty || toDisk ==> dirty) && (deleted ==> isDeleted || toDisk)
    ensures 0 < e.index <= game.lastRaftIndex ==> outcome == Done && (g, deleted, dirty) == (game, isDeleted, isDirty)
    ensures e.cmd.SaveGame? && !(0 < e.index <= game.lastRaftIndex) ==>
              SaveAnswers(if isDeleted then Absent else Present(game), e.cmd.data, e.index, e.cmd.force, outcome)
    ensures e.cmd.SaveGame? && outcome == Done && !(0 < e.index <= game.lastRaftIndex) ==>
              SavedAs(e.cmd.data.value.(lastRaftIndex := e.index), e.index, g) && !deleted && dirty && toDisk
    ensures e.cmd.ApplyActions? ==> (outcome == Failed(DeletedGame) <==> isDeleted && !(0 < e.index <= game.lastRaftIndex))
    ensures e.cmd.ApplyActions? && !isDeleted && game.lastRaftIndex < e.index && outcome == Done ==>
              ExtendedAs(game, if |e.cmd.actions| > 0 then e.cmd.actions else [e.cmd.action], e.index, g)
              && !deleted && dirty == (isDirty || g.log != game.log) && !toDisk
  {
    hide ExtendedAs;
    g, deleted, dirty, toDisk := game, isDeleted, isDirty, false;
    if e.index > 0 && e.index <= g.lastRaftIndex {
      return g, deleted, dirty, false, Done;
    }
    if deleted {
      if !e.cmd.SaveGame? {
        return g, deleted, dirty, false, Failed(DeletedGame);
      }
      g, deleted := NewGame(id), false;
    }
    match e.cmd {
      case SaveGame(_, data, force) =>
        if data.None? {
          return g, deleted, dirty, false, Failed(BadGameData);
        }
        if !force {
          var ok := FSM.CheckGameConflict(data.value, g);
          if !ok {
            return g, deleted, dirty, false, Failed(Conflict);
          }
        }
        g := Repaired(data.value.(lastRaftIndex := e.index));
        dirty, toDisk := true, true;
      case ApplyActions(_, action, actions) =>
        ExtendKeepsId(g, Raws(e.cmd));
        var changed, ok;
        g, changed, ok := FSM.AppendAll(g, action, actions);
        if !ok {
          return g, deleted, dirty, false, Failed(BadAction);
        }
        ExtendIsExtended(game, Raws(e.cmd), e.index, Stamped(g, e.index));
        g := g.(lastRaftIndex := e.index);
        dirty := dirty || changed;
      case DeleteGame(_) =>
        deleted, dirty, toDisk := true, true, true;
        g := g.(lastRaftIndex := e.index);
    }
    outcome := Done;
  }

  /** The results at the given positions are these outcomes, in order. */
  ghost predicate Filed(results: seq<Outcome>, positions: seq<nat>, outcomes: seq<Outcome>) {
    && |positions| == |outcomes|
    && forall k :: 0 <= k < |positions| ==> positions[k] < |results| && results[positions[k]] == outcomes[k]
  }

  ghost predicate OnlyAt(before: seq<Outcome>, after: seq<Outcome>, positions: seq<nat>) {
    |before| == |after| && forall i :: 0 <= i < |before| && i !in positions ==> before[i] == after[i]
  }

  method FailAll(positions: seq<nat>, results: array<Outcome>)
    requires forall k :: 0 <= k < |positions| ==> positions[k] < results.Length
    modifies results
    ensures Filed(results[..], positions, seq(|positions|, _ => Failed(UnreadableGame)))
    ensures OnlyAt(old(results[..]), results[..], positions)
  {
    for k := 0 to |positions|
      invariant forall j :: 0 <= j < k ==> results[positions[j]] == Failed(UnreadableGame)
      invariant OnlyAt(old(results[..]), results[..], positions)
    {
      results[positions[k]] := Failed(UnreadableGame);
    }
  }

  lemma NothingForces(job: Job, id: Id)
    ensures !AnyForces(job, id, []) && JobRun(job, id, []) == (job, [])
  {
  }

  lemma ForcesSnoc(job: Job, id: Id, entries: seq<Entry>, e: Entry)
    ensures AnyForces(job, id, entries + [e])
       <==> AnyForces(job, id, entries) || Forces(JobRun(job, id, entries).0, id, e)
  {
    hide Forces, JobRun;
    var all := entries + [e];
    assert forall k :: 0 <= k < |entries| ==> all[..k] == entries[..k] && all[k] == entries[k];
    assert all[..|entries|] == entries && all[|entries|] == e;
    if Forces(JobRun(job, id, entries).0, id, e) {
      assert Forces(JobRun(job, id, all[..|entries|]).0, id, all[|entries|]);
    }
    if AnyForces(job, id, entries) {
      var k :| 0 <= k < |entries| && Forces(JobRun(job, id, entries[..k]).0, id, entries[k]);
      assert Forces(JobRun(job, id, all[..k]).0, id, all[k]);
    }
  }

  /** The apply loop of a job: its results go to the positions of its entries. */
  method ApplyItems(start: Game, id: Id, entries: seq<Entry>, positions: seq<nat>, results: array<Outcome>,
                    ghost mine: seq<Entry>)
    returns (g: Game, deleted: bool, dirty: bool, forceDiskSave: bool)
    requires start.id == id && results.Length == |entries| && |mine| == |positions|
    requires forall k :: 0 <= k < |positions| ==> positions[k] < |entries| && entries[positions[k]] == mine[k]
    requires forall j, k :: 0 <= j < k < |positions| ==> positions[j] < positions[k]
    requires forall e :: e in mine ==> WellKeyed(e.cmd) && e.cmd.id == id
    modifies results
    ensures g.id == id && Job(g, deleted, dirty) == JobRun(Job(start, false, false), id, mine).0
    ensures forceDiskSave == AnyForces(Job(start, false, false), id, mine)
    ensures (deleted ==> forceDiskSave) && (forceDiskSave ==> dirty)
    ensures Filed(results[..], positions, JobRun(Job(start, false, false), id, mine).1)
    ensures OnlyAt(old(results[..]), results[..], positions)
  {
    hide JobStep, JobRun, Forces, AnyForces;
    g, deleted, dirty, forceDiskSave := start, false, false, false;
    NothingForces(Job(start, false, false), id);
    ghost var outcomes := [];
    assert mine[..0] == [];
    for k := 0 to |positions|
      invariant g.id == id && JobRun(Job(start, false, false), id, mine[..k]) == (Job(g, deleted, dirty), outcomes)
      invariant forceDiskSave == AnyForces(Job(start, false, false), id, mine[..k])
      invariant (deleted ==> forceDiskSave) && (forceDiskSave ==> dirty)
      invariant |outcomes| == k && forall j :: 0 <= j < k ==> results[positions[j]] == outcomes[j]
      invariant OnlyAt(old(results[..]), results[..], positions)
    {
      var e := entries[positions[k]];
      var toDisk, outcome;
      assert e == mine[k] && mine[..k + 1] == mine[..k] + [e];
      JobSnoc(Job(start, false, false), id, mine[..k], e);
      ForcesSnoc(Job(start, false, false), id, mine[..k], e);
      g, deleted, dirty, toDisk, outcome := ApplyInMemory(g, deleted, dirty, id, e);
      forceDiskSave := forceDiskSave || toDisk;
      results[positions[k]] := outcome;
      outcomes := outcomes + [outcome];
    }
    assert mine[..|mine|] == mine;
  }

  /** A job's part of a batch: the game it leaves and the outcomes it files. */
  ghost predicate JobDone(entries: seq<Entry>, id: Id, stored: Loaded, now: Loaded, results: seq<Outcome>) {
    && now == RunJob(stored, id, Mine(entries, id, |entries|)).0
    && Filed(results, Positions(entries, id, |entries|), RunJob(stored, id, Mine(entries, id, |entries|)).1)
  }

  /** Save or delete once. */
  method StoreJob(fsm: FSM, id: Id, g: Game, deleted: bool, dirty: bool, forceDiskSave: bool)
    requires fsm.gs.Valid() && !fsm.gs.At(id).Unreadable? && g.id == id
    requires (deleted ==> forceDiskSave) && (forceDiskSave ==> dirty)
    modifies fsm.gs
    ensures fsm.gs.Valid()
    ensures fsm.gs.At(id) == Settled(old(fsm.gs.At(id)), id, Job(g, deleted, dirty))
    ensures fsm.gs.Held(id) == CopyLeft(old(fsm.gs.Held(id)), old(fsm.gs.At(id)), id, Job(g, deleted, dirty))
    ensures fsm.gs.File(id)
         == if forceDiskSave || (dirty && !fsm.clustered) then fsm.gs.Held(id) else old(fsm.gs.File(id))
    ensures forall other :: other != id ==>
              && fsm.gs.At(other) == old(fsm.gs.At(other))
              && fsm.gs.Held(other) == old(fsm.gs.Held(other)) && fsm.gs.File(other) == old(fsm.gs.File(other))
  {
    assert fsm.gs.At(id).Absent? ==> fsm.gs.Held(id) == fsm.gs.File(id);
    hide LookUp, Newest, Copy, Tombstone;
    if dirty {
      if deleted {
        var _ := fsm.gs.DeleteGame(id);
      } else if forceDiskSave {
        fsm.gs.SaveGame(g);
      } else {
        fsm.gs.SaveGameInMemory(g, !fsm.clustered);
      }
    }
  }

  /** Load once, apply the game's commands in memory, save or delete once. */
  method ProcessGameJob(fsm: FSM, id: Id, entries: seq<Entry>, positions: seq<nat>, results: array<Outcome>)
    requires fsm.gs.Valid() && results.Length == |entries|
    requires positions == Positions(entries, id, |entries|)
    requires forall e :: e in entries ==> WellKeyed(e.cmd)
    modifies fsm.gs, results
    ensures fsm.gs.Valid()
    ensures forall other :: other != id ==> fsm.gs.At(other) == old(fsm.gs.At(other))
    ensures JobDone(entries, id, old(fsm.gs.At(id)), fsm.gs.At(id), results[..])
    ensures OnlyAt(old(results[..]), results[..], positions)
    ensures Moved(entries, id, old(fsm.gs.At(id)), old(fsm.gs.Held(id)), old(fsm.gs.File(id)), fsm.gs.Held(id),
                  fsm.gs.File(id), fsm.clustered)
    ensures forall other :: other != id ==>
              fsm.gs.Held(other) == old(fsm.gs.Held(other)) && fsm.gs.File(other) == old(fsm.gs.File(other))
  {
    hide JobRun, Settled, CopyLeft, JobDone, Moved, Filed, OnlyAt;
    PositionsAreExact(entries, id, |entries|);
    var loaded := fsm.gs.LoadGame(id);
    assert loaded.Present? ==> loaded.game.id == id;
    hide LookUp, Newest, Copy, AnyForces, Tombstone, NewGame;
    if loaded.Unreadable? {
      FailAll(positions, results);
      UnreadableJobIsDone(entries, id, fsm.gs.Held(id), fsm.gs.File(id), results[..], fsm.clustered);
      return;
    }
    var g, deleted, dirty, forceDiskSave := ApplyItems(
      if loaded.Present? then loaded.game else NewGame(id), id, entries, positions, results,
      Mine(entries, id, |entries|));
    StoreJob(fsm, id, g, deleted, dirty, forceDiskSave);
    JobIsDone(entries, id, loaded, old(fsm.gs.Held(id)), old(fsm.gs.File(id)), Job(g, deleted, dirty), forceDiskSave,
              results[..], fsm.gs.At(id), fsm.gs.Held(id), fsm.gs.File(id), fsm.clustered);
  }

  lemma UnreadableJobIsDone(entries: seq<Entry>, id: Id, held: Option<Game>, file: Option<Game>, results: seq<Outcome>,
                            clustered: bool)
    requires Filed(results, Positions(entries, id, |entries|),
                   seq(|Positions(entries, id, |entries|)|, _ => Failed(UnreadableGame)))
    ensures JobDone(entries, id, Unreadable, Unreadable, results)
    ensures Moved(entries, id, Unreadable, held, file, held, file, clustered)
  {
    hide JobRun;
    PositionsAreExact(entries, id, |entries|);
  }

  lemma JobIsDone(entries: seq<Entry>, id: Id, stored: Loaded, held: Option<Game>, file: Option<Game>, job: Job,
                  forced: bool, results: seq<Outcome>, now: Loaded, heldNow: Option<Game>, fileNow: Option<Game>,
                  clustered: bool)
    requires !stored.Unreadable? && job == JobRun(StartJob(stored, id), id, Mine(entries, id, |entries|)).0
    requires Filed(results, Positions(entries, id, |entries|),
                   JobRun(StartJob(stored, id), id, Mine(entries, id, |entries|)).1)
    requires forced == AnyForces(StartJob(stored, id), id, Mine(entries, id, |entries|)) && (forced ==> job.dirty)
    requires now == Settled(stored, id, job) && heldNow == CopyLeft(held, stored, id, job)
    requires fileNow == if forced || (job.dirty && !clustered) then heldNow else file
    ensures JobDone(entries, id, stored, now, results) && Moved(entries, id, stored, held, file, heldNow, fileNow, clustered)
  {
    hide JobRun, Settled, CopyLeft, AnyForces, Filed, StartJob;
  }

  /** A batch with a save or a delete reaches the file at once; one of actions alone leaves it to a later flush, unless
      the node stands alone. */
  ghost predicate ReachesDisk(entries: seq<Entry>, id: Id, stored: Loaded, file: Option<Game>, heldNow: Option<Game>,
                              fileNow: Option<Game>, clustered: bool) {
    var job, mine := StartJob(stored, id), Mine(entries, id, |entries|);
    && (!stored.Unreadable? && AnyForces(job, id, mine) ==> fileNow == heldNow)
    && (clustered && (stored.Unreadable? || !AnyForces(job, id, mine)) ==> fileNow == file)
    && (!clustered && !stored.Unreadable? && JobRun(job, id, mine).0.dirty ==> fileNow == heldNow)
  }

  /** What a batch did to the copy the store goes by and to the file. */
  ghost predicate Moved(entries: seq<Entry>, id: Id, stored: Loaded, held: Option<Game>, file: Option<Game>,
                        heldNow: Option<Game>, fileNow: Option<Game>, clustered: bool) {
    && heldNow == JobCopy(held, stored, id, Mine(entries, id, |entries|)) && MayLag(file, fileNow, heldNow)
    && ReachesDisk(entries, id, stored, file, heldNow, fileNow, clustered)
  }

  lemma NoJobMoves(entries: seq<Entry>, id: Id, stored: Loaded, held: Option<Game>, file: Option<Game>, clustered: bool)
    requires Positions(entries, id, |entries|) == []
    ensures Moved(entries, id, stored, held, file, held, file, clustered)
  {
    PositionsAreExact(entries, id, |entries|);
  }

  lemma NoJobIsDone(entries: seq<Entry>, id: Id, stored: Loaded, results: seq<Outcome>)
    requires Positions(entries, id, |entries|) == []
    ensures JobDone(entries, id, stored, stored, results)
  {
    PositionsAreExact(entries, id, |entries|);
  }

  /** Jobs do not touch each other's results. */
  lemma StaysDone(entries: seq<Entry>, id: Id, other: Id, stored: Loaded, now: Loaded, before: seq<Outcome>,
                  after: seq<Outcome>)
    requires JobDone(entries, other, stored, now, before) && |before| == |entries| && id != other
    requires OnlyAt(before, after, Positions(entries, id, |entries|))
    ensures JobDone(entries, other, stored, now, after)
  {
    PositionsAreExact(entries, id, |entries|);
    PositionsAreExact(entries, other, |entries|);
  }

  /** Group by game, then run every job, in any order. */
  method ApplyBatch(fsm: FSM, entries: seq<Entry>) returns (results: array<Outcome>)
    requires fsm.gs.Valid() && forall e :: e in entries ==> WellKeyed(e.cmd)
    modifies fsm.gs
    ensures fsm.gs.Valid() && fresh(results) && results.Length == |entries|
    ensures forall id :: JobDone(entries, id, old(fsm.gs.At(id)), fsm.gs.At(id), results[..])
    ensures forall id :: Moved(entries, id, old(fsm.gs.At(id)), old(fsm.gs.Held(id)), old(fsm.gs.File(id)),
                               fsm.gs.Held(id), fsm.gs.File(id), fsm.clustered)
  {
    hide JobDone, Moved, LookUp, Newest, Copy;
    results := new Outcome[|entries|](_ => Done);
    var jobs := Group(entries);
    var pending := jobs.Keys;
    forall id | id !in pending
      ensures JobDone(entries, id, old(fsm.gs.At(id)), fsm.gs.At(id), results[..])
      ensures Moved(entries, id, old(fsm.gs.At(id)), old(fsm.gs.Held(id)), old(fsm.gs.File(id)), fsm.gs.Held(id),
                    fsm.gs.File(id), fsm.clustered)
    {
      assert Listed(jobs, id) == [];
      NoJobIsDone(entries, id, old(fsm.gs.At(id)), results[..]);
      NoJobMoves(entries, id, old(fsm.gs.At(id)), old(fsm.gs.Held(id)), old(fsm.gs.File(id)), fsm.clustered);
    }
    while pending != {}
      invariant pending <= jobs.Keys && fsm.gs.Valid() && results.Length == |entries|
      invariant forall id :: id in pending ==>
                  && fsm.gs.At(id) == old(fsm.gs.At(id)) && fsm.gs.Held(id) == old(fsm.gs.Held(id))
                  && fsm.gs.File(id) == old(fsm.gs.File(id))
      invariant forall id :: id !in pending ==> JobDone(entries, id, old(fsm.gs.At(id)), fsm.gs.At(id), results[..])
      invariant forall id :: id !in pending ==>
                  Moved(entries, id, old(fsm.gs.At(id)), old(fsm.gs.Held(id)), old(fsm.gs.File(id)), fsm.gs.Held(id),
                        fsm.gs.File(id), fsm.clustered)
      decreases pending
    {
      label before:
      var id :| id in pending;
      assert Listed(jobs, id) == jobs[id];
      ProcessGameJob(fsm, id, entries, jobs[id], results);
      pending := pending - {id};
      forall other | other != id && other !in pending
        ensures JobDone(entries, other, old(fsm.gs.At(other)), fsm.gs.At(other), results[..])
      {
        StaysDone(entries, id, other, old(fsm.gs.At(other)), fsm.gs.At(other), old@before(results[..]), results[..]);
      }
    }
  }

  function Listed(jobs: map<Id, seq<nat>>, id: Id): seq<nat> {
    if id in jobs then jobs[id] else []
  }

  lemma JobGrows(entries: seq<Entry>, i: nat, jobs: map<Id, seq<nat>>, id: Id)
    requires i < |entries| && Listed(jobs, id) == Positions(entries, id, i)
    ensures var key := entries[i].cmd.id;
            Listed(jobs[key := Listed(jobs, key) + [i]], id) == Positions(entries, id, i + 1)
  {
  }

  lemma NoJobsYet(entries: seq<Entry>, id: Id)
    ensures Listed(map[], id) == Positions(entries, id, 0)
  {
  }

  method Group(entries: seq<Entry>) returns (jobs: map<Id, seq<nat>>)
    ensures forall id :: Listed(jobs, id) == Positions(entries, id, |entries|)
  {
    hide Positions;
    jobs := map[];
    forall id { NoJobsYet(entries, id); }
    for i := 0 to |entries|
      invariant forall id :: Listed(jobs, id) == Positions(entries, id, i)
    {
      ghost var before := jobs;
      var key := entries[i].cmd.id;
      jobs := jobs[key := Listed(jobs, key) + [i]];
      forall id
        ensures Listed(jobs, id) == Positions(entries, id, i + 1)
      {
        JobGrows(entries, i, before, id);
      }
    }
  }

  /** The one-at-a-time counterpart of JobDone, after `n` entries. */
  ghost predicate InOrderDone(entries: seq<Entry>, id: Id, n: nat, stored: Loaded, now: Loaded, results: seq<Outcome>)
    requires n <= |entries|
  {
    && now == RunInOrder(stored, Mine(entries, id, n)).0
    && Filed(results, Positions(entries, id, n), RunInOrder(stored, Mine(entries, id, n)).1)
  }

  lemma FiledAtEnd(results: seq<Outcome>, positions: seq<nat>, outcomes: seq<Outcome>, outcome: Outcome)
    requires Filed(results, positions, outcomes)
    ensures Filed(results + [outcome], positions, outcomes)
    ensures Filed(results + [outcome], positions + [|results|], outcomes + [outcome])
  {
  }

  lemma InOrderAdvances(entries: seq<Entry>, id: Id, n: nat, stored: Loaded, now: Loaded, results: seq<Outcome>,
                        outcome: Outcome)
    requires n < |entries| && |results| == n && InOrderDone(entries, id, n, stored, now, results)
    requires entries[n].cmd.id == id ==> outcome == Decide(now, entries[n].cmd, entries[n].index).1
    ensures InOrderDone(entries, id, n + 1, stored, StepIfMine(now, id, entries[n]), results + [outcome])
  {
    hide Step, Decide, Filed, RunInOrder;
    var mine := Mine(entries, id, n);
    FiledAtEnd(results, Positions(entries, id, n), RunInOrder(stored, mine).1, outcome);
    if entries[n].cmd.id == id {
      InOrderSnoc(stored, mine, entries[n]);
    } else {
      assert Mine(entries, id, n + 1) == mine && Positions(entries, id, n + 1) == Positions(entries, id, n);
    }
  }

  /** The commands one at a time, in log order. */
  method ApplyInOrder(fsm: FSM, entries: seq<Entry>) returns (results: seq<Outcome>)
    requires fsm.gs.Valid() && forall e :: e in entries ==> WellKeyed(e.cmd)
    modifies fsm.gs
    ensures fsm.gs.Valid() && |results| == |entries|
    ensures forall id :: InOrderDone(entries, id, |entries|, old(fsm.gs.At(id)), fsm.gs.At(id), results)
  {
    hide InOrderDone, StepIfMine;
    results := [];
    forall id
      ensures InOrderDone(entries, id, 0, old(fsm.gs.At(id)), fsm.gs.At(id), results)
    {
      NothingDone(entries, id, old(fsm.gs.At(id)));
    }
    for k := 0 to |entries|
      invariant fsm.gs.Valid() && |results| == k
      invariant forall id :: InOrderDone(entries, id, k, old(fsm.gs.At(id)), fsm.gs.At(id), results)
    {
      label before:
      var outcome := ApplyEntry(fsm, entries[k]);
      forall id
        ensures InOrderDone(entries, id, k + 1, old(fsm.gs.At(id)), fsm.gs.At(id), results + [outcome])
      {
        InOrderAdvances(entries, id, k, old(fsm.gs.At(id)), old@before(fsm.gs.At(id)), results, outcome);
      }
      results := results + [outcome];
    }
  }

  lemma NothingDone(entries: seq<Entry>, id: Id, stored: Loaded)
    ensures InOrderDone(entries, id, 0, stored, stored, [])
  {
    assert Mine(entries, id, 0) == [];
  }

  method ApplyEntry(fsm: FSM, e: Entry) returns (outcome: Outcome)
    requires fsm.gs.Valid() && WellKeyed(e.cmd)
    modifies fsm.gs
    ensures fsm.gs.Valid() && outcome == Decide(old(fsm.gs.At(e.cmd.id)), e.cmd, e.index).1
    ensures forall id :: fsm.gs.At(id) == StepIfMine(old(fsm.gs.At(id)), id, e)
  {
    StoresUnderItsKey(fsm.gs.At(e.cmd.id), e.cmd, e.index);
    outcome := fsm.ApplyCommand(e.cmd, e.index);
  }

  ghost predicate SameAt(positions: seq<nat>, xs: seq<Outcome>, ys: seq<Outcome>) {
    forall k :: 0 <= k < |positions| ==>
      positions[k] < |xs| && positions[k] < |ys| && xs[positions[k]] == ys[positions[k]]
  }

  lemma FiledAlikeIff(positions: seq<nat>, xs: seq<Outcome>, ys: seq<Outcome>, us: seq<Outcome>, vs: seq<Outcome>)
    requires Filed(xs, positions, us) && Filed(ys, positions, vs)
    ensures SameAt(positions, xs, ys) <==> us == vs
  {
    if SameAt(positions, xs, ys) {
      forall k | 0 <= k < |us|
        ensures us[k] == vs[k]
      {
        assert xs[positions[k]] == us[k] && ys[positions[k]] == vs[k];
      }
    }
  }

  /** Two replicas hold the same game; one applies the entries as a batch, the other in order. They file the same
      outcomes for the game and end with the same game, up to LastRaftIndex, exactly under the conditions above. */
  lemma BatchMatchesOrderIff(entries: seq<Entry>, id: Id, past: seq<Entry>, live: seq<Entry>, stored: Loaded,
                             batched: Loaded, batchResults: seq<Outcome>, ordered: Loaded, orderResults: seq<Outcome>)
    requires JobDone(entries, id, stored, batched, batchResults)
    requires InOrderDone(entries, id, |entries|, stored, ordered, orderResults)
    requires Mine(entries, id, |entries|) == past + live && AlreadyApplied(stored, id, past) && Live(stored, id, live)
    ensures (SameAt(Positions(entries, id, |entries|), batchResults, orderResults) && Same(batched, ordered))
       <==> if stored.Unreadable? then NoSaves(live) else NothingOnDeleted(live) && OwnerKept(stored, live)
  {
    hide RunJob, RunInOrder, Filed, Mine, NothingOnDeleted, OwnerKept, NoSaves;
    ReplayedBatchAgreesIff(stored, id, past, live);
    FiledAlikeIff(Positions(entries, id, |entries|), batchResults, orderResults,
                  RunJob(stored, id, past + live).1, RunInOrder(stored, past + live).1);
  }
}
