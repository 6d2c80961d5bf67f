/** Replicas that apply the same log cut into batches differently, and replay it in batches after a crash
    (backend/fsm.go, backend/raft.go). The lemmas follow one game, `entries` being its own; no entry deletes it. */
module Replicas {
  import opened Wrappers
  import opened Actions
  import opened GameStore
  import opened Fsm
  import opened Recovery
  import opened Batch

  function Flat<T>(parts: seq<seq<T>>): seq<T>
    decreases |parts|
  {
    if parts == [] then [] else Flat(parts[..|parts| - 1]) + parts[|parts| - 1]
  }

  /** One game through a log cut into batches. */
  ghost function RunCut(stored: Loaded, id: Id, batches: seq<seq<Entry>>): (Loaded, seq<Outcome>)
    decreases |batches|
  {
    if batches == [] then (stored, [])
    else
      var n := |batches| - 1;
      var (before, outcomes) := RunCut(stored, id, batches[..n]);
      var (now, more) := RunJob(before, id, batches[n]);
      (now, outcomes + more)
  }

  /** Valid entries of one game in log order, none of them a delete. */
  ghost predicate Plain(id: Id, entries: seq<Entry>) {
    && Ordered(entries)
    && forall k :: 0 <= k < |entries| ==>
         entries[k].cmd.id == id && Validated(entries[k].cmd) && !entries[k].cmd.DeleteGame?
  }

  lemma PlainParts(id: Id, xs: seq<Entry>, ys: seq<Entry>)
    requires Plain(id, xs + ys)
    ensures Plain(id, xs) && Plain(id, ys)
    ensures xs != [] && ys != [] ==> xs[|xs| - 1].index < ys[0].index
  {
    forall k | 0 <= k < |xs|
      ensures xs[k] == (xs + ys)[k]
    {
    }
    forall k | 0 <= k < |ys|
      ensures ys[k] == (xs + ys)[|xs| + k]
    {
    }
  }

  /** A game that can be loaded, as LoadGame answers it. */
  ghost predicate Sound(stored: Loaded, id: Id) {
    !stored.Unreadable? && Answer(stored, id)
  }

  // ---- Games equal up to LastRaftIndex ----

  lemma SameStep(a: Loaded, b: Loaded, id: Id, e: Entry)
    requires Same(a, b) && Sound(a, id) && Sound(b, id) && Last(a) < e.index && Last(b) < e.index
    requires e.cmd.id == id && Validated(e.cmd)
    ensures Decide(a, e.cmd, e.index).1 == Decide(b, e.cmd, e.index).1
    ensures Same(Step(a, e.cmd, e.index), Step(b, e.cmd, e.index))
    ensures Sound(Step(a, e.cmd, e.index), id) && Last(Step(a, e.cmd, e.index)) <= e.index
  {
    StoresUnderItsKey(a, e.cmd, e.index);
    if a.Present? {
      assert Unindexed(a).game.log == a.game.log && Unindexed(b).game.log == b.game.log;
      if e.cmd.ApplyActions? {
        var x, y := Extend(a.game, DecodedPrefix(Raws(e.cmd))), Extend(b.game, DecodedPrefix(Raws(e.cmd)));
        ExtendSame(a.game, b.game, DecodedPrefix(Raws(e.cmd)));
        Restamped(x, e.index);
        Restamped(y, e.index);
      }
    }
  }

  lemma {:induction false} SameInOrder(a: Loaded, b: Loaded, id: Id, entries: seq<Entry>)
    requires Same(a, b) && Sound(a, id) && Sound(b, id) && Plain(id, entries) && Ahead(a, entries) && Ahead(b, entries)
    ensures RunInOrder(a, entries).1 == RunInOrder(b, entries).1
    ensures Same(RunInOrder(a, entries).0, RunInOrder(b, entries).0)
    decreases |entries|
  {
    hide Step, Decide, Same, Sound;
    if entries != [] {
      var e, rest := entries[0], entries[1..];
      SameStep(a, b, id, e);
      SameIsSymmetric(a, b);
      SameStep(b, a, id, e);
      assert entries == [e] + rest;
      PlainParts(id, [e], rest);
      SameInOrder(Step(a, e.cmd, e.index), Step(b, e.cmd, e.index), id, rest);
    }
  }

  lemma SameIsSymmetric(a: Loaded, b: Loaded)
    requires Same(a, b)
    ensures Same(b, a)
  {
  }

  /** How far a run can bring a game. */
  lemma {:induction false} InOrderBounds(current: Loaded, id: Id, entries: seq<Entry>, bound: nat)
    requires Sound(current, id) && Plain(id, entries)
    requires Last(current) <= bound && forall k :: 0 <= k < |entries| ==> entries[k].index <= bound
    ensures Sound(RunInOrder(current, entries).0, id) && Last(RunInOrder(current, entries).0) <= bound
    decreases |entries|
  {
    hide Step, Decide, Sound;
    if entries != [] {
      var e, rest := entries[0], entries[1..];
      assert entries == [e] + rest;
      PlainParts(id, [e], rest);
      StepBounds(current, id, e);
      InOrderBounds(Step(current, e.cmd, e.index), id, rest, bound);
    }
  }

  lemma StepBounds(current: Loaded, id: Id, e: Entry)
    requires Sound(current, id) && e.cmd.id == id && Validated(e.cmd) && !e.cmd.DeleteGame?
    ensures Sound(Step(current, e.cmd, e.index), id)
    ensures Last(Step(current, e.cmd, e.index)) == Last(current) || Last(Step(current, e.cmd, e.index)) == e.index
        || e.index == 0
  {
    StoresUnderItsKey(current, e.cmd, e.index);
  }

  // ---- One batch ----

  /** How many entries lead a batch that the game has applied already. */
  function Seen(entries: seq<Entry>, last: nat): (n: nat)
    ensures n <= |entries| && (n < |entries| ==> last < entries[n].index)
    ensures forall k :: 0 <= k < n ==> entries[k].index <= last
    decreases |entries|
  {
    if entries == [] || last < entries[0].index then 0 else 1 + Seen(entries[1..], last)
  }

  lemma PartsAreReady(stored: Loaded, id: Id, entries: seq<Entry>, n: nat)
    requires Sound(stored, id) && Plain(id, entries) && n == Seen(entries, Last(stored))
    ensures AlreadyApplied(stored, id, entries[..n]) && Live(stored, id, entries[n..])
  {
    forall k | n <= k < |entries|
      ensures Last(stored) < entries[k].index
    {
      assert entries[n].index <= entries[k].index;
    }
  }

  lemma PlainConditions(stored: Loaded, id: Id, entries: seq<Entry>)
    requires Plain(id, entries)
    ensures NothingOnDeleted(entries) && OwnerKept(stored, entries)
  {
  }

  /** Any batch of such entries does what they do in order, whatever the game has applied already. */
  lemma BatchAgrees(stored: Loaded, id: Id, entries: seq<Entry>)
    requires Sound(stored, id) && Plain(id, entries)
    ensures Agrees(stored, id, entries)
  {
    hide Agrees, AlreadyApplied, Live, NothingOnDeleted, OwnerKept, Plain, Seen;
    var n := Seen(entries, Last(stored));
    var past, live := entries[..n], entries[n..];
    assert past + live == entries;
    PlainParts(id, past, live);
    PartsAreReady(stored, id, entries, n);
    PlainConditions(stored, id, live);
    ReplayedBatchAgreesIff(stored, id, past, live);
  }

  lemma {:induction false} JobBounds(job: Job, id: Id, entries: seq<Entry>, bound: nat)
    requires job.game.id == id && !job.deleted && Plain(id, entries)
    requires job.game.lastRaftIndex <= bound && forall k :: 0 <= k < |entries| ==> entries[k].index <= bound
    ensures var end := JobRun(job, id, entries).0;
      end.game.id == id && !end.deleted && end.game.lastRaftIndex <= bound
    decreases |entries|
  {
    hide JobStep;
    if entries != [] {
      var e, rest := entries[0], entries[1..];
      assert entries == [e] + rest;
      PlainParts(id, [e], rest);
      JobStepBounds(job, id, e);
      JobBounds(JobStep(job, id, e).0, id, rest, bound);
    }
  }

  lemma JobStepBounds(job: Job, id: Id, e: Entry)
    requires job.game.id == id && !job.deleted && e.cmd.id == id && Validated(e.cmd) && !e.cmd.DeleteGame?
    ensures var next := JobStep(job, id, e).0;
      next.game.id == id && !next.deleted
      && (next.game.lastRaftIndex == job.game.lastRaftIndex || next.game.lastRaftIndex == e.index)
  {
    if e.cmd.ApplyActions? {
      ExtendKeepsId(job.game, Raws(e.cmd));
      ExtendKeepsIndex(job.game, DecodedPrefix(Raws(e.cmd)));
    }
  }

  lemma BatchBounds(stored: Loaded, id: Id, entries: seq<Entry>, bound: nat)
    requires Sound(stored, id) && Plain(id, entries)
    requires Last(stored) <= bound && forall k :: 0 <= k < |entries| ==> entries[k].index <= bound
    ensures Sound(RunJob(stored, id, entries).0, id) && Last(RunJob(stored, id, entries).0) <= bound
  {
    hide JobRun;
    JobBounds(StartJob(stored, id), id, entries, bound);
  }

  /** A batch of entries the game has applied already leaves it as it is, on both sides. */
  lemma SeenBatch(stored: Loaded, id: Id, entries: seq<Entry>)
    requires Sound(stored, id) && Plain(id, entries)
    requires forall k :: 0 <= k < |entries| ==> entries[k].index <= Last(stored)
    ensures RunJob(stored, id, entries).0 == stored && RunInOrder(stored, entries).0 == stored
  {
    hide JobStep, Step, Decide;
    if entries != [] {
      assert 0 < entries[0].index;
      assert AlreadyApplied(stored, id, entries);
      AppliedEntriesAreSkipped(StartJob(stored, id), stored, id, entries, []);
      assert entries + [] == entries;
    }
  }

  // ---- Any cut into batches ----

  lemma {:induction false} InOrderConcat(current: Loaded, xs: seq<Entry>, ys: seq<Entry>)
    ensures RunInOrder(current, xs + ys).0 == RunInOrder(RunInOrder(current, xs).0, ys).0
    ensures RunInOrder(current, xs + ys).1 == RunInOrder(current, xs).1 + RunInOrder(RunInOrder(current, xs).0, ys).1
    decreases |xs|
  {
    hide Step, Decide;
    if xs == [] {
      assert xs + ys == ys;
    } else {
      assert (xs + ys)[1..] == xs[1..] + ys;
      InOrderConcat(Step(current, xs[0].cmd, xs[0].index), xs[1..], ys);
    }
  }

  lemma PartsAreUpTo(xs: seq<Entry>, ys: seq<Entry>, bound: nat)
    requires forall k :: 0 <= k < |xs + ys| ==> (xs + ys)[k].index <= bound
    ensures forall k :: 0 <= k < |xs| ==> xs[k].index <= bound
    ensures forall k :: 0 <= k < |ys| ==> ys[k].index <= bound
  {
    forall k | 0 <= k < |xs|
      ensures xs[k].index <= bound
    {
      assert (xs + ys)[k] == xs[k];
    }
    forall k | 0 <= k < |ys|
      ensures ys[k].index <= bound
    {
      assert (xs + ys)[|xs| + k] == ys[k];
    }
  }

  lemma {:induction false} CutBounds(stored: Loaded, id: Id, batches: seq<seq<Entry>>, bound: nat)
    requires Sound(stored, id) && Plain(id, Flat(batches))
    requires Last(stored) <= bound && forall k :: 0 <= k < |Flat(batches)| ==> Flat(batches)[k].index <= bound
    ensures Sound(RunCut(stored, id, batches).0, id) && Last(RunCut(stored, id, batches).0) <= bound
    decreases |batches|
  {
    hide RunJob, Plain, Sound;
    if batches != [] {
      var n := |batches| - 1;
      var init, last := Flat(batches[..n]), batches[n];
      PlainParts(id, init, last);
      PartsAreUpTo(init, last, bound);
      CutBounds(stored, id, batches[..n], bound);
      BatchBounds(RunCut(stored, id, batches[..n]).0, id, last, bound);
    }
  }

  lemma {:induction false} SeenCut(stored: Loaded, id: Id, batches: seq<seq<Entry>>)
    requires Sound(stored, id) && Plain(id, Flat(batches))
    requires forall k :: 0 <= k < |Flat(batches)| ==> Flat(batches)[k].index <= Last(stored)
    ensures RunCut(stored, id, batches).0 == stored
    decreases |batches|
  {
    hide RunJob, Plain, Sound;
    if batches != [] {
      var n := |batches| - 1;
      var init, last := Flat(batches[..n]), batches[n];
      PlainParts(id, init, last);
      PartsAreUpTo(init, last, Last(stored));
      SeenCut(stored, id, batches[..n]);
      SeenBatch(stored, id, last);
    }
  }

  /** All indices of the first part are below those of the second, so a game past the start of the second has seen the
      first. */
  lemma FirstPartIsSeen(id: Id, xs: seq<Entry>, ys: seq<Entry>, last: nat)
    requires Plain(id, xs + ys) && ys != [] && ys[0].index <= last
    ensures forall k :: 0 <= k < |xs| ==> xs[k].index <= last
  {
    forall k | 0 <= k < |xs|
      ensures xs[k].index <= last
    {
      assert (xs + ys)[k].index < (xs + ys)[|xs|].index;
    }
  }

  lemma FirstPartIsBelow(id: Id, xs: seq<Entry>, ys: seq<Entry>)
    requires Plain(id, xs + ys) && ys != []
    ensures 0 < ys[0].index && forall k :: 0 <= k < |xs| ==> xs[k].index <= ys[0].index - 1
    ensures forall k :: 0 <= k < |ys| ==> ys[0].index <= ys[k].index
  {
    forall k | 0 <= k < |xs|
      ensures xs[k].index <= ys[0].index - 1
    {
      assert (xs + ys)[k].index < (xs + ys)[|xs|].index;
    }
    forall k | 0 <= k < |ys|
      ensures ys[0].index <= ys[k].index
    {
      assert (xs + ys)[|xs|].index <= (xs + ys)[|xs| + k].index;
    }
    assert 0 < (xs + ys)[|xs|].index;
  }

  /** However the log is cut, the batches give the outcomes of the log order, and its game up to LastRaftIndex. */
  lemma {:induction false} CutAgrees(stored: Loaded, id: Id, batches: seq<seq<Entry>>)
    requires Sound(stored, id) && Plain(id, Flat(batches))
    ensures RunCut(stored, id, batches).1 == RunInOrder(stored, Flat(batches)).1
    ensures Same(RunCut(stored, id, batches).0, RunInOrder(stored, Flat(batches)).0)
    decreases |batches|
  {
    hide RunJob, RunInOrder, Plain, Sound, Same;
    if batches == [] {
      NothingRun(stored);
    } else {
      var n := |batches| - 1;
      var init, last := Flat(batches[..n]), batches[n];
      var cut, inOrder := RunCut(stored, id, batches[..n]).0, RunInOrder(stored, init).0;
      PlainParts(id, init, last);
      CutAgrees(stored, id, batches[..n]);
      InOrderConcat(stored, init, last);
      ReachedIsSound(stored, id, batches[..n]);
      BatchAgrees(cut, id, last);
      LastPartAgrees(stored, id, batches[..n], last);
      SameIsTransitive(RunJob(cut, id, last).0, RunInOrder(cut, last).0, RunInOrder(inOrder, last).0);
    }
  }

  lemma NothingRun(stored: Loaded)
    ensures RunInOrder(stored, []) == (stored, []) && Same(stored, stored)
  {
  }

  lemma SameIsTransitive(a: Loaded, b: Loaded, c: Loaded)
    requires Same(a, b) && Same(b, c)
    ensures Same(a, c)
  {
  }

  function TopIndex(last: nat, entries: seq<Entry>): (top: nat)
    ensures last <= top && forall k :: 0 <= k < |entries| ==> entries[k].index <= top
  {
    if entries == [] then last
    else
      var rest := TopIndex(last, entries[1..]);
      if rest < entries[0].index then entries[0].index else rest
  }

  lemma ReachedIsSound(stored: Loaded, id: Id, batches: seq<seq<Entry>>)
    requires Sound(stored, id) && Plain(id, Flat(batches))
    ensures Sound(RunCut(stored, id, batches).0, id) && Sound(RunInOrder(stored, Flat(batches)).0, id)
  {
    hide RunCut, RunInOrder, Sound, Plain;
    var bound := TopIndex(Last(stored), Flat(batches));
    CutBounds(stored, id, batches, bound);
    InOrderBounds(stored, id, Flat(batches), bound);
  }

  /** The next entries do the same to the cut run and to the run in order. */
  lemma LastPartAgrees(stored: Loaded, id: Id, batches: seq<seq<Entry>>, last: seq<Entry>)
    requires Sound(stored, id) && Plain(id, Flat(batches) + last)
    requires Same(RunCut(stored, id, batches).0, RunInOrder(stored, Flat(batches)).0)
    ensures var cut, inOrder := RunCut(stored, id, batches).0, RunInOrder(stored, Flat(batches)).0;
      && RunInOrder(cut, last).1 == RunInOrder(inOrder, last).1
      && Same(RunInOrder(cut, last).0, RunInOrder(inOrder, last).0)
  {
    hide RunCut, RunInOrder, Sound, Plain, Same;
    var init := Flat(batches);
    var cut, inOrder := RunCut(stored, id, batches).0, RunInOrder(stored, init).0;
    PlainParts(id, init, last);
    if last == [] {
      NothingRun(cut);
      NothingRun(inOrder);
    } else if last[0].index <= Last(stored) {
      FirstPartIsSeen(id, init, last, Last(stored));
      SeenCut(stored, id, batches);
      SeenBatch(stored, id, init);
      NothingRun(RunInOrder(stored, last).0);
    } else {
      FirstPartIsBelow(id, init, last);
      CutBounds(stored, id, batches, last[0].index - 1);
      InOrderBounds(stored, id, init, last[0].index - 1);
      SameInOrder(cut, inOrder, id, last);
    }
  }

  /** Two replicas that start from the same game and cut the log differently give its commands the same results and end
      with the same game up to LastRaftIndex. */
  lemma TwoCutsAgree(stored: Loaded, id: Id, one: seq<seq<Entry>>, other: seq<seq<Entry>>)
    requires Sound(stored, id) && Plain(id, Flat(one)) && Flat(one) == Flat(other)
    ensures RunCut(stored, id, one).1 == RunCut(stored, id, other).1
    ensures Same(RunCut(stored, id, one).0, RunCut(stored, id, other).0)
  {
    hide RunCut, RunInOrder;
    CutAgrees(stored, id, one);
    CutAgrees(stored, id, other);
  }

  // ---- Replaying in batches ----

  ghost function Kept(job: Job): Loaded {
    Present(Normalized(job.game))
  }

  /** A job that must save has seen everything up to its last success, and what follows fails again on what it saves. */
  lemma {:induction false} DirtyJobIsDone(before: Loaded, id: Id, init: seq<Entry>, last: seq<Entry>, k: nat)
    requires Sound(before, id) && Plain(id, init + last) && k <= |last|
    ensures var job := JobRun(StartJob(before, id), id, last[..k]).0;
      !job.deleted && job.game.id == id
      && (job.dirty ==> RunInOrder(Kept(job), init + last[..k]).0 == Kept(job))
    decreases k
  {
    hide JobStep, Plain, Sound, Step, RunInOrder;
    if k == 0 {
      assert last[..0] == [] && JobRun(StartJob(before, id), id, []).0 == StartJob(before, id);
      StartIsClean(before, id);
    } else {
      var e, done := last[k - 1], init + last[..k - 1];
      DirtyJobIsDone(before, id, init, last, k - 1);
      var job := JobRun(StartJob(before, id), id, last[..k - 1]).0;
      assert last[..k] == last[..k - 1] + [e] && init + last[..k] == done + [e];
      JobSnoc(StartJob(before, id), id, last[..k - 1], e);
      PlainPrefix(id, init + last, |init| + k);
      assert (init + last)[..|init| + k] == done + [e];
      InOrderSnoc(Kept(job), done, e);
      OneMoreDone(job, id, done, e);
    }
  }

  lemma StartIsClean(before: Loaded, id: Id)
    requires Sound(before, id)
    ensures !StartJob(before, id).dirty && !StartJob(before, id).deleted && StartJob(before, id).game.id == id
  {
  }

  lemma PlainPrefix(id: Id, entries: seq<Entry>, n: nat)
    requires Plain(id, entries) && n <= |entries|
    ensures Plain(id, entries[..n])
  {
  }

  lemma OneMoreDone(job: Job, id: Id, done: seq<Entry>, e: Entry)
    requires !job.deleted && job.game.id == id && Plain(id, done + [e])
    requires job.dirty ==> RunInOrder(Kept(job), done).0 == Kept(job)
    requires RunInOrder(Kept(job), done + [e]).0 == Step(RunInOrder(Kept(job), done).0, e.cmd, e.index)
    ensures var next := JobStep(job, id, e).0;
      !next.deleted && next.game.id == id && (next.dirty ==> RunInOrder(Kept(next), done + [e]).0 == Kept(next))
  {
    hide RunInOrder;
    var next, all := JobStep(job, id, e).0, done + [e];
    assert all[|done|] == e;
    JobStepBounds(job, id, e);
    if next.game.lastRaftIndex == e.index && next != job {
      forall k | 0 <= k < |all|
        ensures all[k].index <= e.index
      {
        assert k < |done| ==> all[k].index < all[|done|].index;
      }
      SeenBatch(Kept(next), id, all);
    }
  }

  /** Replaying onto what the batches left changes nothing, up to LastRaftIndex. */
  lemma {:induction false} CutIsIdempotent(stored: Loaded, id: Id, batches: seq<seq<Entry>>)
    requires Sound(stored, id) && Plain(id, Flat(batches))
    ensures Same(RunInOrder(RunCut(stored, id, batches).0, Flat(batches)).0, RunCut(stored, id, batches).0)
    decreases |batches|
  {
    hide RunInOrder, Plain, Sound, Same, JobRun;
    if batches == [] {
      NothingRun(stored);
    } else {
      var n := |batches| - 1;
      var init, last := Flat(batches[..n]), batches[n];
      var before := RunCut(stored, id, batches[..n]).0;
      PlainParts(id, init, last);
      ReachedIsSound(stored, id, batches[..n]);
      SoundIsReadable(before, id);
      DirtyJobIsDone(before, id, init, last, |last|);
      assert last[..|last|] == last;
      if JobRun(StartJob(before, id), id, last).0.dirty {
        NothingRun(Kept(JobRun(StartJob(before, id), id, last).0));
      } else {
        CutIsIdempotent(stored, id, batches[..n]);
        CleanBatchIsIdempotent(before, id, init, last);
      }
    }
  }

  lemma SoundIsReadable(stored: Loaded, id: Id)
    requires Sound(stored, id)
    ensures !stored.Unreadable?
  {
  }

  lemma CleanBatchIsIdempotent(before: Loaded, id: Id, init: seq<Entry>, last: seq<Entry>)
    requires Sound(before, id) && Plain(id, init + last) && RunJob(before, id, last).0 == before
    requires Same(RunInOrder(before, init).0, before)
    ensures Same(RunInOrder(before, init + last).0, before)
  {
    hide RunInOrder, Plain, Sound, Same, RunJob;
    var again := RunInOrder(before, init).0;
    PlainParts(id, init, last);
    InOrderConcat(before, init, last);
    BatchAgrees(before, id, last);
    SameIsSymmetric(before, RunInOrder(before, last).0);
    if last == [] {
      NothingRun(again);
    } else if last[0].index <= Last(before) {
      FirstPartIsSeen(id, init, last, Last(before));
      SeenBatch(before, id, init);
    } else {
      FirstPartIsBelow(id, init, last);
      InOrderBounds(before, id, init, last[0].index - 1);
      SameInOrder(again, before, id, last);
      SameIsTransitive(RunInOrder(again, last).0, RunInOrder(before, last).0, before);
    }
  }

  /** From what some batches of the log left, the log leads where it led before. */
  lemma CutLeads(now: Loaded, id: Id, batches: seq<seq<Entry>>, rest: seq<Entry>)
    requires Sound(now, id) && Plain(id, Flat(batches) + rest)
    ensures var full := Flat(batches) + rest;
      Same(RunInOrder(RunCut(now, id, batches).0, full).0, RunInOrder(now, full).0)
    ensures Sound(RunCut(now, id, batches).0, id)
  {
    hide RunInOrder, RunCut, Plain, Sound, Same;
    var init := Flat(batches);
    var cut, inOrder := RunCut(now, id, batches).0, RunInOrder(now, init).0;
    var again := RunInOrder(cut, init).0;
    PlainParts(id, init, rest);
    ReachedIsSound(now, id, batches);
    InOrderConcat(cut, init, rest);
    InOrderConcat(now, init, rest);
    CutIsIdempotent(now, id, batches);
    CutAgrees(now, id, batches);
    SameIsTransitive(again, cut, inOrder);
    if rest == [] {
      NothingRun(again);
      NothingRun(inOrder);
    } else if rest[0].index <= Last(now) {
      FirstPartIsSeen(id, init, rest, Last(now));
      SeenCut(now, id, batches);
      SeenBatch(now, id, init);
      NothingRun(RunInOrder(now, rest).0);
    } else {
      FirstPartIsBelow(id, init, rest);
      CutBounds(now, id, batches, rest[0].index - 1);
      InOrderBounds(cut, id, init, rest[0].index - 1);
      InOrderBounds(now, id, init, rest[0].index - 1);
      SameInOrder(again, inOrder, id, rest);
    }
  }

  /** What is left after some rounds, each of which applied some batches before the crash. */
  ghost function AfterRounds(start: Loaded, id: Id, rounds: seq<seq<seq<Entry>>>): Loaded
    decreases |rounds|
  {
    if rounds == [] then start else RunCut(AfterRounds(start, id, rounds[..|rounds| - 1]), id, rounds[|rounds| - 1]).0
  }

  /** Crash recovery in batches: after any number of crashes, each round cutting any part of the log into batches of its
      own, a last round through the whole log, cut in any way, ends with the game of a crash-free run, cut in any other
      way, up to LastRaftIndex. */
  lemma RoundsRecover(start: Loaded, id: Id, entries: seq<Entry>, rounds: seq<seq<seq<Entry>>>, last: seq<seq<Entry>>,
                      free: seq<seq<Entry>>)
    requires Sound(start, id) && Plain(id, entries) && Flat(last) == Flat(free) == entries
    requires forall k :: 0 <= k < |rounds| ==> Flat(rounds[k]) <= entries
    ensures Same(RunCut(AfterRounds(start, id, rounds), id, last).0, RunCut(start, id, free).0)
  {
    hide RunInOrder, RunCut, Plain, Sound, Same;
    var now := AfterRounds(start, id, rounds);
    RoundsLead(start, id, entries, rounds);
    CutAgrees(now, id, last);
    CutAgrees(start, id, free);
    var a, b := RunCut(now, id, last).0, RunInOrder(now, entries).0;
    var c, d := RunInOrder(start, entries).0, RunCut(start, id, free).0;
    SameIsSymmetric(d, c);
    SameIsTransitive(a, b, c);
    SameIsTransitive(a, c, d);
  }

  lemma {:induction false} RoundsLead(start: Loaded, id: Id, entries: seq<Entry>, rounds: seq<seq<seq<Entry>>>)
    requires Sound(start, id) && Plain(id, entries) && forall k :: 0 <= k < |rounds| ==> Flat(rounds[k]) <= entries
    ensures Sound(AfterRounds(start, id, rounds), id)
    ensures Same(RunInOrder(AfterRounds(start, id, rounds), entries).0, RunInOrder(start, entries).0)
    decreases |rounds|
  {
    hide RunInOrder, RunCut, Plain, Sound, Same;
    if rounds == [] {
      NothingRun(RunInOrder(start, entries).0);
    } else {
      var n := |rounds| - 1;
      var before := AfterRounds(start, id, rounds[..n]);
      var rest := entries[|Flat(rounds[n])|..];
      RoundsLead(start, id, entries, rounds[..n]);
      assert entries == Flat(rounds[n]) + rest;
      CutLeads(before, id, rounds[n], rest);
      SameIsTransitive(RunInOrder(AfterRounds(start, id, rounds), entries).0, RunInOrder(before, entries).0,
                       RunInOrder(start, entries).0);
    }
  }

  // ---- Every game of a log ----

  function Own(entries: seq<Entry>, id: Id): seq<Entry> {
    Mine(entries, id, |entries|)
  }

  /** One game's share of every batch. */
  function OwnOf(batches: seq<seq<Entry>>, id: Id): seq<seq<Entry>>
    decreases |batches|
  {
    if batches == [] then [] else OwnOf(batches[..|batches| - 1], id) + [Own(batches[|batches| - 1], id)]
  }

  lemma {:induction false} MinePrefix(xs: seq<Entry>, ys: seq<Entry>, id: Id, n: nat)
    requires n <= |xs|
    ensures Mine(xs + ys, id, n) == Mine(xs, id, n)
    decreases n
  {
    if n > 0 {
      MinePrefix(xs, ys, id, n - 1);
    }
  }

  lemma {:induction false} OwnConcat(xs: seq<Entry>, ys: seq<Entry>, id: Id, n: nat)
    requires n <= |ys|
    ensures Mine(xs + ys, id, |xs| + n) == Own(xs, id) + Mine(ys, id, n)
    decreases n
  {
    if n == 0 {
      MinePrefix(xs, ys, id, |xs|);
    } else {
      OwnConcat(xs, ys, id, n - 1);
    }
  }

  lemma {:induction false} OwnOfFlat(batches: seq<seq<Entry>>, id: Id)
    ensures Flat(OwnOf(batches, id)) == Own(Flat(batches), id)
    decreases |batches|
  {
    hide Own;
    if batches == [] {
      OwnOfNothing(id);
    } else {
      var n := |batches| - 1;
      OwnOfFlat(batches[..n], id);
      OwnOfBoth(Flat(batches[..n]), batches[n], id);
      assert OwnOf(batches, id)[..n] == OwnOf(batches[..n], id) by {
        OwnOfLength(batches[..n], id);
      }
    }
  }

  lemma OwnOfNothing(id: Id)
    ensures Own([], id) == []
  {
  }

  lemma {:induction false} OwnOfLength(batches: seq<seq<Entry>>, id: Id)
    ensures |OwnOf(batches, id)| == |batches|
    decreases |batches|
  {
    if batches != [] {
      OwnOfLength(batches[..|batches| - 1], id);
    }
  }

  lemma OwnOfBoth(xs: seq<Entry>, ys: seq<Entry>, id: Id)
    ensures Own(xs + ys, id) == Own(xs, id) + Own(ys, id)
  {
    OwnConcat(xs, ys, id, |ys|);
  }

  lemma {:induction false} RunIsInOrder(current: Loaded, id: Id, entries: seq<Entry>, n: nat)
    requires n <= |entries|
    ensures Run(current, id, entries[..n]) == RunInOrder(current, Mine(entries, id, n)).0
    decreases n
  {
    hide Step, Decide, RunInOrder, Run;
    if n == 0 {
      NothingRun(current);
      NoneRun(current, id);
      assert entries[..0] == [];
    } else {
      var m := n - 1;
      RunIsInOrder(current, id, entries, m);
      RunSnoc(current, id, entries, m);
      InOrderSnoc(current, Mine(entries, id, m), entries[m]);
      assert entries[..m + 1] == entries[..n];
      assert entries[m].cmd.id != id ==> Mine(entries, id, n) == Mine(entries, id, m);
    }
  }

  lemma NoneRun(current: Loaded, id: Id)
    ensures Run(current, id, []) == current
  {
  }

  // ---- The copies that batches leave ----

  /** The copy the store goes by after the batches, given the one it went by before. */
  ghost function CutWrote(before: Option<Game>, stored: Loaded, id: Id, batches: seq<seq<Entry>>): Option<Game>
    decreases |batches|
  {
    if batches == [] then before
    else
      var n := |batches| - 1;
      JobCopy(CutWrote(before, stored, id, batches[..n]), RunCut(stored, id, batches[..n]).0, id, batches[n])
  }

  ghost predicate ModernJob(job: Job) {
    !job.deleted && job.game.schemaVersion >= SCHEMA_VERSION_V3
  }

  lemma JobStepStaysModern(job: Job, id: Id, e: Entry)
    requires !job.deleted && !e.cmd.DeleteGame? && Modern(e.cmd) && e.cmd.id == id
    requires ModernJob(job) || (job.game == NewGame(id) && 0 < e.index && BeginsModern(e.cmd))
    ensures ModernJob(JobStep(job, id, e).0)
    ensures job.dirty || !ModernJob(job) ==> JobStep(job, id, e).0.dirty
  {
    if e.cmd.ApplyActions? {
      var raws := Raws(e.cmd);
      assert raws[0] in raws;
      if ModernJob(job) {
        ExtendStaysModern(job.game, raws);
      } else {
        var g := Applied(NewGame(id), raws[0].action);
        assert !Recent([], raws[0].action.id);
        ExtendStaysModern(g, raws[1..]);
        assert DecodedPrefix(raws)[1..] == DecodedPrefix(raws[1..]);
        ExtendSame(g, g, DecodedPrefix(raws[1..]));
      }
    }
  }

  lemma {:induction false} JobRunStaysModern(job: Job, id: Id, entries: seq<Entry>)
    requires Plain(id, entries) && forall k :: 0 <= k < |entries| ==> Modern(entries[k].cmd)
    requires ModernJob(job)
    ensures ModernJob(JobRun(job, id, entries).0)
    ensures job.dirty ==> JobRun(job, id, entries).0.dirty
    decreases |entries|
  {
    hide JobStep, Modern, ModernJob, BeginsModern;
    if entries != [] {
      var e, rest := entries[0], entries[1..];
      assert entries == [e] + rest;
      PlainParts(id, [e], rest);
      ModernIsLive(job);
      JobStepStaysModern(job, id, e);
      JobRunStaysModern(JobStep(job, id, e).0, id, rest);
    }
  }

  lemma ModernIsLive(job: Job)
    requires ModernJob(job)
    ensures !job.deleted
  {
  }

  /** A copy of the current version that loads as this game. */
  ghost predicate ModernCopy(copy: Option<Game>, now: Loaded) {
    !OldSchema(copy) && FromFile(copy) == now
  }

  lemma BatchStaysModern(before: Option<Game>, now: Loaded, id: Id, entries: seq<Entry>)
    requires Plain(id, entries) && forall k :: 0 <= k < |entries| ==> Modern(entries[k].cmd)
    requires ModernCopy(before, now) && (now.Absent? && entries != [] ==> BeginsModern(entries[0].cmd))
    ensures ModernCopy(JobCopy(before, now, id, entries), RunJob(now, id, entries).0)
    ensures RunJob(now, id, entries).0.Absent? ==> now.Absent? && entries == []
  {
    hide JobStep, Modern, BeginsModern;
    var start := StartJob(now, id);
    if now.Present? {
      JobRunStaysModern(start, id, entries);
    } else if entries != [] {
      var e, rest := entries[0], entries[1..];
      assert entries == [e] + rest;
      PlainParts(id, [e], rest);
      JobStepStaysModern(start, id, e);
      JobRunStaysModern(JobStep(start, id, e).0, id, rest);
    }
  }

  /** Nothing of a game's own entries can write an old version. */
  ghost predicate OwnModern(before: Option<Game>, now: Loaded, entries: seq<Entry>) {
    && ModernCopy(before, now)
    && (now.Absent? && entries != [] ==> BeginsModern(entries[0].cmd))
    && forall k :: 0 <= k < |entries| ==> Modern(entries[k].cmd)
  }

  lemma {:induction false} CutStaysModern(before: Option<Game>, now: Loaded, id: Id, batches: seq<seq<Entry>>,
                                          rest: seq<Entry>)
    requires Plain(id, Flat(batches)) && OwnModern(before, now, Flat(batches) + rest)
    ensures ModernCopy(CutWrote(before, now, id, batches), RunCut(now, id, batches).0)
    ensures RunCut(now, id, batches).0.Absent? ==> now.Absent? && Flat(batches) == []
    decreases |batches|
  {
    hide Modern, BeginsModern, RunJob, JobCopy, ModernCopy, Plain;
    if batches != [] {
      var n := |batches| - 1;
      var init, last := Flat(batches[..n]), batches[n];
      assert Flat(batches) + rest == init + (last + rest);
      PlainParts(id, init, last);
      CutStaysModern(before, now, id, batches[..n], last + rest);
      forall k | 0 <= k < |last|
        ensures Modern(last[k].cmd)
      {
        assert (Flat(batches) + rest)[|init| + k] == last[k];
      }
      if init == [] && last != [] {
        assert (Flat(batches) + rest)[0] == last[0];
      }
      BatchStaysModern(CutWrote(before, now, id, batches[..n]), RunCut(now, id, batches[..n]).0, id, last);
    }
  }

  // ---- Replicas ----

  /** A game's results so far: those filed at its positions, batch by batch. */
  function OwnResults(batches: seq<seq<Entry>>, results: seq<seq<Outcome>>, id: Id): seq<Outcome>
    requires |results| == |batches| && forall k :: 0 <= k < |batches| ==> |results[k]| == |batches[k]|
    decreases |batches|
  {
    if batches == [] then []
    else
      var n := |batches| - 1;
      OwnResults(batches[..n], results[..n], id) + Picked(batches[n], results[n], id, |batches[n]|)
  }

  function Picked(entries: seq<Entry>, results: seq<Outcome>, id: Id, n: nat): seq<Outcome>
    requires |results| == |entries| && n <= |entries|
  {
    if n == 0 then []
    else Picked(entries, results, id, n - 1) + if entries[n - 1].cmd.id == id then [results[n - 1]] else []
  }

  lemma {:induction false} PickedIsFiled(entries: seq<Entry>, results: seq<Outcome>, id: Id, n: nat)
    requires |results| == |entries| && n <= |entries|
    ensures |Picked(entries, results, id, n)| == |Positions(entries, id, n)|
    ensures forall k :: 0 <= k < |Positions(entries, id, n)| ==>
              && Positions(entries, id, n)[k] < n
              && Picked(entries, results, id, n)[k] == results[Positions(entries, id, n)[k]]
    decreases n
  {
    if n > 0 {
      PickedIsFiled(entries, results, id, n - 1);
    }
  }

  /** After some of the batches every game stands where its own batches lead, and every file is the copy of the start or
      of one of them. */
  ghost predicate OnCut(gs: GameStore, cache: map<Id, Game>, disk: map<Id, Game>, batches: seq<seq<Entry>>)
    reads gs
  {
    forall id ::
      && gs.At(id) == RunCut(LookUp(cache, disk, id), id, OwnOf(batches, id)).0
      && gs.Held(id) == CutWrote(Newest(cache, disk, id), LookUp(cache, disk, id), id, OwnOf(batches, id))
      && CutReached(gs.File(id), Newest(cache, disk, id), LookUp(cache, disk, id), id, batches)
  }

  ghost predicate CutReached(file: Option<Game>, before: Option<Game>, start: Loaded, id: Id,
                             batches: seq<seq<Entry>>) {
    exists lag :: 0 <= lag <= |batches| && file == CutWrote(before, start, id, OwnOf(batches[..lag], id))
  }

  ghost predicate CutResults(cache: map<Id, Game>, disk: map<Id, Game>, batches: seq<seq<Entry>>,
                             results: seq<seq<Outcome>>) {
    && |results| == |batches| && (forall k :: 0 <= k < |batches| ==> |results[k]| == |batches[k]|)
    && forall id :: OwnResults(batches, results, id) == RunCut(LookUp(cache, disk, id), id, OwnOf(batches, id)).1
  }

  lemma OwnOfSnoc(batches: seq<seq<Entry>>, batch: seq<Entry>, id: Id)
    ensures OwnOf(batches + [batch], id) == OwnOf(batches, id) + [Own(batch, id)]
  {
    var all := batches + [batch];
    assert all[..|all| - 1] == batches;
  }

  lemma CutSnoc(before: Option<Game>, start: Loaded, id: Id, batches: seq<seq<Entry>>, batch: seq<Entry>)
    ensures var own, cut := OwnOf(batches, id), RunCut(start, id, OwnOf(batches, id));
      && RunCut(start, id, OwnOf(batches + [batch], id)).0 == RunJob(cut.0, id, Own(batch, id)).0
      && RunCut(start, id, OwnOf(batches + [batch], id)).1 == cut.1 + RunJob(cut.0, id, Own(batch, id)).1
      && CutWrote(before, start, id, OwnOf(batches + [batch], id))
      == JobCopy(CutWrote(before, start, id, own), cut.0, id, Own(batch, id))
  {
    hide RunJob, JobCopy, Own;
    OwnOfSnoc(batches, batch, id);
    var all := OwnOf(batches + [batch], id);
    assert all[..|all| - 1] == OwnOf(batches, id);
  }

  lemma StillCutReached(file: Option<Game>, before: Option<Game>, start: Loaded, id: Id, batches: seq<seq<Entry>>,
                        batch: seq<Entry>, next: Option<Game>)
    requires CutReached(file, before, start, id, batches)
    requires next == file || next == CutWrote(before, start, id, OwnOf(batches + [batch], id))
    ensures CutReached(next, before, start, id, batches + [batch])
  {
    hide CutWrote, OwnOf;
    var all := batches + [batch];
    var lag :| 0 <= lag <= |batches| && file == CutWrote(before, start, id, OwnOf(batches[..lag], id));
    assert all[..lag] == batches[..lag] && all[..|all|] == all;
  }

  /** What a batch and some flushes after it do to one game. */
  ghost predicate BatchMoved(id: Id, batch: seq<Entry>, stored: Loaded, held: Option<Game>, file: Option<Game>,
                             now: Loaded, heldNow: Option<Game>, fileNow: Option<Game>, results: seq<Outcome>)
    requires |results| == |batch|
  {
    && now == RunJob(stored, id, Own(batch, id)).0
    && heldNow == JobCopy(held, stored, id, Own(batch, id))
    && MayLag(file, fileNow, heldNow)
    && Picked(batch, results, id, |batch|) == RunJob(stored, id, Own(batch, id)).1
  }

  lemma DoneMoves(id: Id, batch: seq<Entry>, stored: Loaded, held: Option<Game>, file: Option<Game>,
                  now: Loaded, heldNow: Option<Game>, fileNow: Option<Game>, results: seq<Outcome>, clustered: bool)
    requires |results| == |batch| && JobDone(batch, id, stored, now, results)
    requires Moved(batch, id, stored, held, file, heldNow, fileNow, clustered)
    ensures BatchMoved(id, batch, stored, held, file, now, heldNow, fileNow, results)
  {
    hide RunJob, JobCopy;
    PickedIsFiled(batch, results, id, |batch|);
    assert Picked(batch, results, id, |batch|) == RunJob(stored, id, Own(batch, id)).1;
  }

  lemma FlushMoves(id: Id, batch: seq<Entry>, stored: Loaded, held: Option<Game>, file: Option<Game>,
                   now: Loaded, heldNow: Option<Game>, fileNow: Option<Game>, results: seq<Outcome>,
                   flushed: Option<Game>)
    requires |results| == |batch| && BatchMoved(id, batch, stored, held, file, now, heldNow, fileNow, results)
    requires flushed == fileNow || flushed == heldNow
    ensures BatchMoved(id, batch, stored, held, file, now, heldNow, flushed, results)
  {
  }

  method BatchThenFlush(fsm: FSM, batch: seq<Entry>, ids: seq<Id>) returns (results: seq<Outcome>)
    requires fsm.gs.Valid() && forall e :: e in batch ==> WellKeyed(e.cmd)
    modifies fsm.gs
    ensures fsm.gs.Valid() && |results| == |batch|
    ensures forall id :: BatchMoved(id, batch, old(fsm.gs.At(id)), old(fsm.gs.Held(id)), old(fsm.gs.File(id)),
                                    fsm.gs.At(id), fsm.gs.Held(id), fsm.gs.File(id), results)
  {
    hide LookUp, Newest, Copy, JobDone, Moved, BatchMoved;
    var gs := fsm.gs;
    var filed := ApplyBatch(fsm, batch);
    results := filed[..];
    forall id
      ensures BatchMoved(id, batch, old(gs.At(id)), old(gs.Held(id)), old(gs.File(id)), gs.At(id), gs.Held(id),
                         gs.File(id), results)
    {
      DoneMoves(id, batch, old(gs.At(id)), old(gs.Held(id)), old(gs.File(id)), gs.At(id), gs.Held(id), gs.File(id),
                results, fsm.clustered);
    }
    for j := 0 to |ids|
      invariant gs.Valid()
      invariant forall id :: BatchMoved(id, batch, old(gs.At(id)), old(gs.Held(id)), old(gs.File(id)), gs.At(id),
                                        gs.Held(id), gs.File(id), results)
    {
      label before:
      gs.Flush(ids[j]);
      forall id
        ensures BatchMoved(id, batch, old(gs.At(id)), old(gs.Held(id)), old(gs.File(id)), gs.At(id), gs.Held(id),
                           gs.File(id), results)
      {
        FlushMoves(id, batch, old(gs.At(id)), old(gs.Held(id)), old(gs.File(id)), old@before(gs.At(id)),
                   old@before(gs.Held(id)), old@before(gs.File(id)), results, gs.File(id));
      }
    }
  }

  lemma OneMoreCut(id: Id, cache: map<Id, Game>, disk: map<Id, Game>, batches: seq<seq<Entry>>,
                   results: seq<seq<Outcome>>, batch: seq<Entry>, more: seq<Outcome>, file: Option<Game>,
                   now: Loaded, heldNow: Option<Game>, fileNow: Option<Game>)
    requires |more| == |batch| && CutResults(cache, disk, batches, results)
    requires var start, before := LookUp(cache, disk, id), Newest(cache, disk, id);
      && CutReached(file, before, start, id, batches)
      && BatchMoved(id, batch, RunCut(start, id, OwnOf(batches, id)).0,
                    CutWrote(before, start, id, OwnOf(batches, id)), file, now, heldNow, fileNow, more)
    ensures var start, before, own := LookUp(cache, disk, id), Newest(cache, disk, id), OwnOf(batches + [batch], id);
      && now == RunCut(start, id, own).0
      && heldNow == CutWrote(before, start, id, own)
      && CutReached(fileNow, before, start, id, batches + [batch])
      && OwnResults(batches + [batch], results + [more], id) == RunCut(start, id, own).1
  {
    hide LookUp, Newest, RunJob, JobCopy, RunCut, CutWrote, OwnOf, Own, CutReached, Picked;
    var start, before := LookUp(cache, disk, id), Newest(cache, disk, id);
    var all, res := batches + [batch], results + [more];
    assert all[..|all| - 1] == batches && res[..|res| - 1] == results;
    CutSnoc(before, start, id, batches, batch);
    StillCutReached(file, before, start, id, batches, batch, fileNow);
  }

  /** Snapshot (which flushes), then apply the batches with any flushes in between. */
  method ApplyInBatches(fsm: FSM, batches: seq<seq<Entry>>, flushes: seq<seq<Id>>) returns (results: seq<seq<Outcome>>)
    requires fsm.gs.Valid() && |flushes| == |batches|
    requires forall k :: 0 <= k < |batches| ==> forall e :: e in batches[k] ==> WellKeyed(e.cmd)
    modifies fsm.gs
    ensures fsm.gs.Valid() && OnCut(fsm.gs, old(fsm.gs.cache), old(fsm.gs.disk), batches)
    ensures CutResults(old(fsm.gs.cache), old(fsm.gs.disk), batches, results)
  {
    hide BatchMoved, Own, RunJob, JobCopy;
    ghost var cache, disk := fsm.gs.cache, fsm.gs.disk;
    fsm.gs.FlushAll();
    results := [];
    StartOnCut(fsm.gs, cache, disk, batches);
    for k := 0 to |batches|
      invariant fsm.gs.Valid() && OnCut(fsm.gs, cache, disk, batches[..k])
      invariant CutResults(cache, disk, batches[..k], results)
    {
      hide LookUp, Newest, RunCut, CutWrote, OwnOf, OwnResults, CutReached;
      label before:
      var more := BatchThenFlush(fsm, batches[k], flushes[k]);
      assert batches[..k + 1] == batches[..k] + [batches[k]];
      forall id
        ensures fsm.gs.At(id) == RunCut(LookUp(cache, disk, id), id, OwnOf(batches[..k + 1], id)).0
        ensures fsm.gs.Held(id)
             == CutWrote(Newest(cache, disk, id), LookUp(cache, disk, id), id, OwnOf(batches[..k + 1], id))
        ensures CutReached(fsm.gs.File(id), Newest(cache, disk, id), LookUp(cache, disk, id), id, batches[..k + 1])
        ensures OwnResults(batches[..k + 1], results + [more], id)
             == RunCut(LookUp(cache, disk, id), id, OwnOf(batches[..k + 1], id)).1
      {
        assert old@before(fsm.gs.At(id)) == RunCut(LookUp(cache, disk, id), id, OwnOf(batches[..k], id)).0;
        assert old@before(fsm.gs.Held(id))
            == CutWrote(Newest(cache, disk, id), LookUp(cache, disk, id), id, OwnOf(batches[..k], id));
        OneMoreCut(id, cache, disk, batches[..k], results, batches[k], more, old@before(fsm.gs.File(id)),
                   fsm.gs.At(id), fsm.gs.Held(id), fsm.gs.File(id));
      }
      results := results + [more];
    }
    assert batches[..|batches|] == batches;
  }

  lemma StartOnCut(gs: GameStore, cache: map<Id, Game>, disk: map<Id, Game>, batches: seq<seq<Entry>>)
    requires forall id :: gs.At(id) == LookUp(cache, disk, id) && gs.Held(id) == gs.File(id) == Newest(cache, disk, id)
    ensures OnCut(gs, cache, disk, batches[..0]) && CutResults(cache, disk, batches[..0], [])
  {
    hide LookUp, Newest, Copy;
    var none := batches[..0];
    assert none == [];
    forall id
      ensures OwnOf(none, id) == [] && OwnResults(none, [], id) == []
      ensures CutReached(gs.File(id), Newest(cache, disk, id), LookUp(cache, disk, id), id, none)
    {
      assert none[..0] == none;
    }
  }

  predicate SameStart(a: Loaded, b: Loaded) {
    a == b && !a.Unreadable?
  }

  /** Two replicas, whatever each flushes, cut the same log into batches of their own. For every game that both start
      from and that the log does not delete, they file the same results, and end with the same game up to
      LastRaftIndex. */
  method TwoReplicas(one: FSM, other: FSM, cutOne: seq<seq<Entry>>, cutOther: seq<seq<Entry>>,
                     flushesOne: seq<seq<Id>>, flushesOther: seq<seq<Id>>)
    returns (resultsOne: seq<seq<Outcome>>, resultsOther: seq<seq<Outcome>>)
    requires one.gs != other.gs && one.gs.Valid() && other.gs.Valid()
    requires |flushesOne| == |cutOne| && |flushesOther| == |cutOther| && Flat(cutOne) == Flat(cutOther)
    requires forall k :: 0 <= k < |cutOne| ==> forall e :: e in cutOne[k] ==> WellKeyed(e.cmd)
    requires forall k :: 0 <= k < |cutOther| ==> forall e :: e in cutOther[k] ==> WellKeyed(e.cmd)
    modifies one.gs, other.gs
    ensures one.gs.Valid() && other.gs.Valid() && |resultsOne| == |cutOne| && |resultsOther| == |cutOther|
    ensures forall k :: 0 <= k < |cutOne| ==> |resultsOne[k]| == |cutOne[k]|
    ensures forall k :: 0 <= k < |cutOther| ==> |resultsOther[k]| == |cutOther[k]|
    ensures forall id | Plain(id, Own(Flat(cutOne), id)) && SameStart(old(one.gs.At(id)), old(other.gs.At(id))) ::
              && OwnResults(cutOne, resultsOne, id) == OwnResults(cutOther, resultsOther, id)
              && Same(one.gs.At(id), other.gs.At(id))
  {
    hide RunCut, Own, OwnOf, OwnResults, Plain, Same, CutWrote, CutReached;
    resultsOne := ApplyInBatches(one, cutOne, flushesOne);
    resultsOther := ApplyInBatches(other, cutOther, flushesOther);
    forall id | Plain(id, Own(Flat(cutOne), id)) && SameStart(old(one.gs.At(id)), old(other.gs.At(id)))
      ensures OwnResults(cutOne, resultsOne, id) == OwnResults(cutOther, resultsOther, id)
      ensures Same(one.gs.At(id), other.gs.At(id))
    {
      var start := old(one.gs.At(id));
      assert Sound(start, id);
      hide LookUp, Newest;
      OwnOfFlat(cutOne, id);
      OwnOfFlat(cutOther, id);
      TwoCutsAgree(start, id, OwnOf(cutOne, id), OwnOf(cutOther, id));
    }
  }

  // ---- Crashes ----

  /** How the log was cut before the next crash, and what was flushed after each batch. */
  datatype Cut = Cut(batches: seq<seq<Entry>>, flushes: seq<seq<Id>>)

  /** The cut is one of the log, or of the part of it applied before the crash. */
  ghost predicate CutOf(cut: Cut, entries: seq<Entry>) {
    && |cut.flushes| == |cut.batches| && Flat(cut.batches) <= entries
    && forall k :: 0 <= k < |cut.batches| ==> forall e :: e in cut.batches[k] ==> WellKeyed(e.cmd)
  }

  /** What a game needs to survive: its entries are valid, delete it nowhere, and write no old version. */
  ghost predicate Survives(copy: Option<Game>, now: Loaded, id: Id, entries: seq<Entry>) {
    Plain(id, Own(entries, id)) && Sound(now, id) && OwnModern(copy, now, Own(entries, id))
  }

  /** From here the entries lead, up to LastRaftIndex, where they led from the start. */
  ghost predicate LeadsAlong(now: Loaded, start: Loaded, id: Id, entries: seq<Entry>) {
    Same(RunInOrder(now, Own(entries, id)).0, RunInOrder(start, Own(entries, id)).0)
  }

  lemma FileSurvives(file: Option<Game>, before: Option<Game>, now: Loaded, start: Loaded, id: Id,
                     entries: seq<Entry>, batches: seq<seq<Entry>>)
    requires Survives(before, now, id, entries) && LeadsAlong(now, start, id, entries)
    requires CutReached(file, before, now, id, batches) && Flat(batches) <= entries
    ensures Survives(file, FromFile(file), id, entries) && LeadsAlong(FromFile(file), start, id, entries)
  {
    hide Plain, Sound, Same, RunInOrder, RunCut, CutWrote, Own, Modern, BeginsModern;
    var lag :| 0 <= lag <= |batches| && file == CutWrote(before, now, id, OwnOf(batches[..lag], id));
    var own := OwnOf(batches[..lag], id);
    FlatPrefix(batches, lag);
    var rest := entries[|Flat(batches[..lag])|..];
    assert entries == Flat(batches[..lag]) + rest;
    OwnOfFlat(batches[..lag], id);
    OwnOfBoth(Flat(batches[..lag]), rest, id);
    PlainParts(id, Flat(own), Own(rest, id));
    CutStaysModern(before, now, id, own, Own(rest, id));
    CutLeads(now, id, own, Own(rest, id));
    SameIsTransitive(RunInOrder(FromFile(file), Own(entries, id)).0, RunInOrder(now, Own(entries, id)).0,
                     RunInOrder(start, Own(entries, id)).0);
  }

  lemma {:induction false} FlatPrefix(batches: seq<seq<Entry>>, lag: nat)
    requires lag <= |batches|
    ensures Flat(batches[..lag]) <= Flat(batches)
    decreases |batches|
  {
    if lag < |batches| {
      var n := |batches| - 1;
      FlatPrefix(batches[..n], lag);
      assert batches[..n][..lag] == batches[..lag];
    } else {
      assert batches[..lag] == batches;
    }
  }

  /** One round and the crash that ends it. */
  method CrashOnceInBatches(fsm: FSM, ghost entries: seq<Entry>, round: Cut, ghost starts: map<Id, Game>,
                            ghost files: map<Id, Game>, ghost safe: iset<Id>)
    requires fsm.gs.Valid() && CutOf(round, entries)
    requires forall id :: id in safe ==>
               && Survives(fsm.gs.Held(id), fsm.gs.At(id), id, entries)
               && LeadsAlong(fsm.gs.At(id), LookUp(starts, files, id), id, entries)
    modifies fsm.gs
    ensures fsm.gs.Valid()
    ensures forall id :: id in safe ==>
              && Survives(fsm.gs.Held(id), fsm.gs.At(id), id, entries)
              && LeadsAlong(fsm.gs.At(id), LookUp(starts, files, id), id, entries)
  {
    hide Survives, LeadsAlong, RunCut, CutWrote, CutReached;
    ghost var cache, disk := fsm.gs.cache, fsm.gs.disk;
    var _ := ApplyInBatches(fsm, round.batches, round.flushes);
    ghost var left := fsm.gs.disk;
    forall id | id in safe
      ensures Survives(Copy(left, id), FromFile(Copy(left, id)), id, entries)
      ensures LeadsAlong(FromFile(Copy(left, id)), LookUp(starts, files, id), id, entries)
    {
      assert Copy(left, id) == fsm.gs.File(id);
      assert Survives(old(fsm.gs.Held(id)), old(fsm.gs.At(id)), id, entries);
      FileSurvives(Copy(left, id), Newest(cache, disk, id), LookUp(cache, disk, id), LookUp(starts, files, id), id,
                   entries, round.batches);
    }
    fsm.gs.Restart();
    forall id
      ensures fsm.gs.Held(id) == Copy(left, id) && fsm.gs.At(id) == FromFile(Copy(left, id))
    {
    }
  }

  /** However often the node crashes, wherever in the log, however each replay cuts the log into batches, and whatever
      is flushed: every game that its entries do not delete, and for which they write no old version, ends with the
      game of the log order, up to LastRaftIndex. */
  method SurviveCrashesInBatches(fsm: FSM, ghost entries: seq<Entry>, rounds: seq<Cut>, last: Cut)
    requires fsm.gs.Valid() && CutOf(last, entries) && Flat(last.batches) == entries
    requires forall k :: 0 <= k < |rounds| ==> CutOf(rounds[k], entries)
    modifies fsm.gs
    ensures fsm.gs.Valid()
    ensures forall id :: old(Survives(fsm.gs.Held(id), fsm.gs.At(id), id, entries)) ==>
              Same(fsm.gs.At(id), Run(old(fsm.gs.At(id)), id, entries))
  {
    hide Survives, LeadsAlong, Same, RunCut, CutWrote, CutReached, Flat;
    ghost var cache, disk := fsm.gs.cache, fsm.gs.disk;
    ghost var safe := iset id | Survives(fsm.gs.Held(id), fsm.gs.At(id), id, entries);
    forall id
      ensures LeadsAlong(fsm.gs.At(id), LookUp(cache, disk, id), id, entries)
    {
      LeadsAlongItself(fsm.gs.At(id), id, entries);
    }
    for k := 0 to |rounds|
      invariant fsm.gs.Valid()
      invariant forall id :: id in safe ==>
                  && Survives(fsm.gs.Held(id), fsm.gs.At(id), id, entries)
                  && LeadsAlong(fsm.gs.At(id), LookUp(cache, disk, id), id, entries)
    {
      CrashOnceInBatches(fsm, entries, rounds[k], cache, disk, safe);
    }
    label crashed:
    var _ := ApplyInBatches(fsm, last.batches, last.flushes);
    forall id | id in safe
      ensures Same(fsm.gs.At(id), Run(old(fsm.gs.At(id)), id, entries))
    {
      LastCutAgrees(old@crashed(fsm.gs.Held(id)), old@crashed(fsm.gs.At(id)), old(fsm.gs.At(id)), id, last.batches);
    }
  }

  lemma LeadsAlongItself(now: Loaded, id: Id, entries: seq<Entry>)
    ensures LeadsAlong(now, now, id, entries)
  {
  }

  lemma LastCutAgrees(copy: Option<Game>, now: Loaded, start: Loaded, id: Id, batches: seq<seq<Entry>>)
    requires Survives(copy, now, id, Flat(batches)) && LeadsAlong(now, start, id, Flat(batches))
    ensures Same(RunCut(now, id, OwnOf(batches, id)).0, Run(start, id, Flat(batches)))
  {
    hide Plain, Sound, Same, RunInOrder, RunCut, OwnModern, Run;
    var entries := Flat(batches);
    OwnOfFlat(batches, id);
    CutAgrees(now, id, OwnOf(batches, id));
    assert entries[..|entries|] == entries;
    RunIsInOrder(start, id, entries, |entries|);
    SameIsTransitive(RunCut(now, id, OwnOf(batches, id)).0, RunInOrder(now, Own(entries, id)).0,
                     RunInOrder(start, Own(entries, id)).0);
  }
}
