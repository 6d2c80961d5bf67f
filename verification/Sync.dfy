/** The rules of the sync protocol on logs: where a batch belongs, when it is accepted, what it leaves behind
    (backend/websocket.go), and how a client merges what it is sent (frontend/controllers/ActiveGameController.js). */
module Sync {
  import opened Actions

  const MAX_BATCH := 100

  /** getCurrentRevision. */
  function Head(log: seq<Action>): Id {
    if log == [] then NoId else log[|log| - 1].id
  }

  ghost predicate Named(log: seq<Action>) {
    forall i :: 0 <= i < |log| ==> log[i].id != NoId
  }

  lemma StaysNamed(g: Game, actions: seq<Action>)
    requires Named(g.log) && Named(actions)
    ensures Named(Extend(g, actions).log)
  {
    ExtendIsExtendLog(g, actions);
    ExtendLogGrows(g.log, actions);
  }

  /** The position right after the last entry with this id; 0 for the start of the game or an unknown id. */
  function After(log: seq<Action>, base: Id): (n: nat)
    ensures n <= |log|
  {
    if log == [] || Head(log) == base then |log| else After(log[..|log| - 1], base)
  }

  predicate Knows(log: seq<Action>, base: Id) {
    base == NoId || 0 < After(log, base)
  }

  /** An empty log accepts anything; otherwise the base is known and the batch repeats what follows it, as far as
      both go. */
  ghost predicate Accepts(log: seq<Action>, base: Id, actions: seq<Action>) {
    log == [] || (Knows(log, base) && Matches(log, After(log, base), actions))
  }

  ghost predicate Matches(log: seq<Action>, start: nat, actions: seq<Action>) {
    forall k :: 0 <= k < |actions| && start + k < |log| ==> log[start + k].id == actions[k].id
  }

  /** `n` is the place the base names: the start of the game, or right after the last entry with that id. */
  ghost predicate IsPlace(log: seq<Action>, base: Id, n: nat) {
    && n <= |log|
    && (if n == 0 then base == NoId else log[n - 1].id == base)
    && forall i :: n <= i < |log| ==> log[i].id != base
  }

  /** The batch starts at the place its base names and repeats what the log has there, as far as both go. */
  ghost predicate Follows(log: seq<Action>, base: Id, actions: seq<Action>) {
    log == []
    || exists n: nat ::
         IsPlace(log, base, n) && forall k :: 0 <= k < |actions| && n + k < |log| ==> log[n + k].id == actions[k].id
  }

  /** What is accepted is exactly what follows its base. An unknown base is never accepted. */
  lemma AcceptsIffFollows(log: seq<Action>, base: Id, actions: seq<Action>)
    requires Named(log)
    ensures Accepts(log, base, actions) <==> Follows(log, base, actions)
  {
    AfterIsLast(log, base);
    if log != [] && Follows(log, base, actions) {
      var n: nat :|
        IsPlace(log, base, n) && forall k :: 0 <= k < |actions| && n + k < |log| ==> log[n + k].id == actions[k].id;
      assert !(n < After(log, base)) && !(After(log, base) < n);
    }
    if log != [] && Accepts(log, base, actions) {
      assert IsPlace(log, base, After(log, base));
    }
  }

  /** Where an accepted batch begins. */
  function Slot(log: seq<Action>, base: Id): nat {
    if log == [] then 0 else After(log, base)
  }

  /** The game after an accepted batch: one that is already there is only acknowledged, any other is re-applied
      whole, its repeated part included. */
  ghost function Accepted(g: Game, base: Id, actions: seq<Action>): Game {
    if g.log != [] && After(g.log, base) + |actions| <= |g.log| then g else Extend(g, actions)
  }

  ghost function AcceptedLog(log: seq<Action>, base: Id, actions: seq<Action>): seq<Action> {
    if log != [] && After(log, base) + |actions| <= |log| then log else ExtendLog(log, actions)
  }

  lemma HoldsIn(log: seq<Action>, longer: seq<Action>, id: Id)
    requires log <= longer && Holds(log, id)
    ensures Holds(longer, id)
  {
    var i :| 0 <= i < |log| && log[i].id == id;
    assert longer[i].id == id;
  }

  /** Every action of a batch is in the log afterwards, appended or there before. */
  lemma {:induction false} NothingIsLost(log: seq<Action>, actions: seq<Action>, k: nat)
    requires k < |actions|
    ensures Holds(ExtendLog(log, actions), actions[k].id)
    decreases |actions|
  {
    var next := AppliedLog(log, actions[0]);
    if k > 0 {
      NothingIsLost(next, actions[1..], k - 1);
    } else {
      assert Holds(next, actions[0].id) by {
        assert !Recent(log, actions[0].id) ==> (log + [actions[0]])[|log|].id == actions[0].id;
      }
      ExtendLogGrows(next, actions[1..]);
      HoldsIn(next, ExtendLog(log, actions), actions[0].id);
    }
  }

  /** What is acknowledged is in the log. */
  lemma AcceptedHolds(log: seq<Action>, base: Id, actions: seq<Action>, k: nat)
    requires Accepts(log, base, actions) && k < |actions|
    ensures Holds(AcceptedLog(log, base, actions), actions[k].id)
  {
    if log != [] && After(log, base) + |actions| <= |log| {
      assert log[After(log, base) + k].id == actions[k].id;
    } else {
      NothingIsLost(log, actions, k);
    }
  }

  lemma AcceptedGrows(log: seq<Action>, base: Id, actions: seq<Action>)
    ensures log <= AcceptedLog(log, base, actions)
  {
    ExtendLogGrows(log, actions);
  }

  lemma AcceptedIsAcceptedLog(g: Game, base: Id, actions: seq<Action>)
    ensures Accepted(g, base, actions).log == AcceptedLog(g.log, base, actions)
  {
    ExtendIsExtendLog(g, actions);
  }

  lemma {:induction false} AfterIsLast(log: seq<Action>, base: Id)
    ensures 0 < After(log, base) ==> log[After(log, base) - 1].id == base
    ensures forall i :: After(log, base) <= i < |log| ==> log[i].id != base
  {
    if log != [] && Head(log) != base {
      AfterIsLast(log[..|log| - 1], base);
    }
  }

  /** The part of an accepted batch that the log already ends with. */
  function Overlap(log: seq<Action>, base: Id): nat {
    |log| - Slot(log, base)
  }

  /** The trimmed batch the handler computes and then does not use would have given the same game: the cap on the
      batch keeps the whole repeated part inside the duplicate window. */
  lemma WholeBatchEqualsRemainder(g: Game, base: Id, actions: seq<Action>)
    requires Accepts(g.log, base, actions) && Overlap(g.log, base) < |actions| <= MAX_BATCH
    ensures Accepted(g, base, actions) == Extend(g, actions[Overlap(g.log, base)..])
  {
    hide Accepts, Repeats, Extend;
    OverlapRepeats(g.log, base, actions);
    RetryIsAbsorbed(g, actions, Overlap(g.log, base));
  }

  lemma OverlapRepeats(log: seq<Action>, base: Id, actions: seq<Action>)
    requires Accepts(log, base, actions) && Overlap(log, base) <= |actions|
    ensures Repeats(log, actions, Overlap(log, base))
  {
    var n := Overlap(log, base);
    forall k | 0 <= k < n
      ensures log[|log| - n + k].id == actions[k].id
    {
      assert log[Slot(log, base) + k].id == actions[k].id;
    }
  }

  /** The batch sits, whole and in order, right after its base. */
  ghost predicate LandsAt(log: seq<Action>, start: nat, actions: seq<Action>) {
    start + |actions| <= |log| && forall k :: 0 <= k < |actions| ==> log[start + k].id == actions[k].id
  }

  lemma {:induction false} FullLengthIsWhole(log: seq<Action>, actions: seq<Action>)
    requires |ExtendLog(log, actions)| == |log| + |actions|
    ensures ExtendLog(log, actions) == log + actions
    decreases |actions|
  {
    if actions == [] {
      assert log + actions == log;
    } else {
      ExtendLogGrows(AppliedLog(log, actions[0]), actions[1..]);
      FullLengthIsWhole(AppliedLog(log, actions[0]), actions[1..]);
      assert log + [actions[0]] + actions[1..] == log + actions;
    }
  }

  lemma LandsIffNothingDropped(log: seq<Action>, start: nat, actions: seq<Action>)
    requires start <= |log| < start + |actions| && Matches(log, start, actions)
    ensures var rest := actions[|log| - start..];
            LandsAt(ExtendLog(log, rest), start, actions) <==> ExtendLog(log, rest) == log + rest
  {
    var rest := actions[|log| - start..];
    var next := ExtendLog(log, rest);
    ExtendLogGrows(log, rest);
    if LandsAt(next, start, actions) {
      FullLengthIsWhole(log, rest);
    }
    if next == log + rest {
      forall k | 0 <= k < |actions|
        ensures next[start + k].id == actions[k].id
      {
      }
    }
  }

  /** A batch that the log already contains sits there. */
  lemma ContainedLands(log: seq<Action>, base: Id, actions: seq<Action>)
    requires Accepts(log, base, actions) && |actions| <= Overlap(log, base)
    ensures LandsAt(log, Slot(log, base), actions)
  {
    AfterIsLast(log, base);
  }

  lemma AcceptedMatches(log: seq<Action>, base: Id, actions: seq<Action>)
    requires Accepts(log, base, actions)
    ensures Slot(log, base) <= |log| && Matches(log, Slot(log, base), actions)
  {
  }

  /** An acknowledged batch keeps the old log as a prefix and lands right after its base, exactly when no action
      of its new part is still in the duplicate window at its turn. */
  lemma AcceptedBatchLandsIff(g: Game, base: Id, actions: seq<Action>)
    requires Accepts(g.log, base, actions) && |actions| <= MAX_BATCH
    ensures g.log <= Accepted(g, base, actions).log
    ensures LandsAt(Accepted(g, base, actions).log, Slot(g.log, base), actions)
       <==> Overlap(g.log, base) >= |actions| || Unseen(g.log, actions[Overlap(g.log, base)..])
  {
    hide Unseen, Extend, ExtendLog, After, LandsAt, Matches, Accepts;
    var n := Overlap(g.log, base);
    AcceptedMatches(g.log, base, actions);
    if n < |actions| {
      var rest := actions[n..];
      WholeBatchEqualsRemainder(g, base, actions);
      ExtendIsExtendLog(g, rest);
      ExtendLogGrows(g.log, rest);
      LandsWholeIffUnseen(g.log, rest);
      LandsIffNothingDropped(g.log, Slot(g.log, base), actions);
    } else {
      ContainedLands(g.log, base, actions);
      EmptyBatch(g, actions);
    }
  }

  lemma EmptyBatch(g: Game, actions: seq<Action>)
    ensures actions == [] ==> Extend(g, actions) == g
  {
  }

  lemma RemainderIsFresh(log: seq<Action>, base: Id, actions: seq<Action>)
    requires Accepts(log, base, actions) && Overlap(log, base) < |actions|
    requires DistinctIds(actions) && SharesNoId(log[..After(log, base)], actions)
    ensures SharesNoId(log, actions[Overlap(log, base)..]) && DistinctIds(actions[Overlap(log, base)..])
  {
    var n, start := Overlap(log, base), After(log, base);
    forall i, j | 0 <= i < |log| && 0 <= j < |actions[n..]|
      ensures log[i].id != actions[n..][j].id
    {
      if i < start {
        assert log[..start][i].id != actions[n + j].id;
      } else {
        assert log[start + (i - start)].id == actions[i - start].id;
      }
    }
  }

  /** In particular: distinct ids, none of them in the log up to the base. */
  lemma FreshBatchLands(g: Game, base: Id, actions: seq<Action>)
    requires Accepts(g.log, base, actions) && |actions| <= MAX_BATCH
    requires DistinctIds(actions) && SharesNoId(g.log[..After(g.log, base)], actions)
    ensures g.log <= Accepted(g, base, actions).log
    ensures LandsAt(Accepted(g, base, actions).log, Slot(g.log, base), actions)
  {
    if Overlap(g.log, base) < |actions| {
      RemainderIsFresh(g.log, base, actions);
      FreshIsUnseen(g.log, actions[Overlap(g.log, base)..]);
    }
    AcceptedBatchLandsIff(g, base, actions);
  }

  // ---- Clients ----

  ghost predicate Holds(log: seq<Action>, id: Id) {
    exists i :: 0 <= i < |log| && log[i].id == id
  }

  /** A client appends what it is sent, skipping ids it already holds. */
  ghost function Merge(held: seq<Action>, incoming: seq<Action>): seq<Action>
    decreases |incoming|
  {
    if incoming == [] then held
    else Merge(if Holds(held, incoming[0].id) then held else held + [incoming[0]], incoming[1..])
  }

  /** The log with repeated ids dropped, first occurrence kept. */
  ghost function Dedup(log: seq<Action>): seq<Action> {
    Merge([], log)
  }

  lemma {:induction false} MergeConcat(held: seq<Action>, xs: seq<Action>, ys: seq<Action>)
    ensures Merge(held, xs + ys) == Merge(Merge(held, xs), ys)
    decreases |xs|
  {
    if xs == [] {
      assert xs + ys == ys;
    } else {
      assert (xs + ys)[1..] == xs[1..] + ys;
      MergeConcat(if Holds(held, xs[0].id) then held else held + [xs[0]], xs[1..], ys);
    }
  }

  lemma {:induction false} MergeHolds(held: seq<Action>, incoming: seq<Action>)
    ensures held <= Merge(held, incoming)
    ensures forall id :: Holds(Merge(held, incoming), id) <==> Holds(held, id) || Holds(incoming, id)
    ensures DistinctIds(held) ==> DistinctIds(Merge(held, incoming))
    decreases |incoming|
  {
    if incoming != [] {
      var a, rest := incoming[0], incoming[1..];
      var next := if Holds(held, a.id) then held else held + [a];
      MergeHolds(next, rest);
      forall id
        ensures Holds(Merge(held, incoming), id) <==> Holds(held, id) || Holds(incoming, id)
      {
        HoldsCons(a, rest, id);
        HoldsSnoc(held, a, id);
      }
    }
  }

  lemma HoldsCons(a: Action, rest: seq<Action>, id: Id)
    ensures Holds([a] + rest, id) <==> a.id == id || Holds(rest, id)
  {
    if Holds(rest, id) {
      var i :| 0 <= i < |rest| && rest[i].id == id;
      assert ([a] + rest)[i + 1].id == id;
    }
    assert ([a] + rest)[0] == a;
  }

  lemma HoldsSnoc(log: seq<Action>, a: Action, id: Id)
    ensures Holds(log + [a], id) <==> Holds(log, id) || a.id == id
  {
    assert (log + [a])[|log|] == a;
    if Holds(log, id) {
      var i :| 0 <= i < |log| && log[i].id == id;
      assert (log + [a])[i].id == id;
    }
  }
}
