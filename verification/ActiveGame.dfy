/** The game a client keeps up to date as actions come in (frontend/controllers/ActiveGameController.js,
    frontend/reducer.js). The reducer for a single action is a parameter; `game` is its state without the log. */
module ActiveGame {
  import opened Actions
  import opened Sync
  import opened History

  ghost function Reduce<S>(reduce: (S, Action) -> S, initial: S, actions: seq<Action>): S
    decreases |actions|
  {
    if actions == [] then initial
    else reduce(Reduce(reduce, initial, actions[..|actions| - 1]), actions[|actions| - 1])
  }

  /** An incoming action keeps the incremental state right unless it is new, no UNDO, and already named by a live
      UNDO. */
  ghost predicate InOrder(log: seq<Action>, a: Action) {
    Holds(log, a.id) || a.kind.Undo? || a.id !in Undone(log)
  }

  ghost predicate AllInOrder(log: seq<Action>, actions: seq<Action>)
    decreases |actions|
  {
    actions == [] || (InOrder(log, actions[0]) && AllInOrder(Merge(log, actions[..1]), actions[1..]))
  }

  class ActiveGame<S> {
    const reduce: (S, Action) -> S
    const initial: S
    var actionLog: seq<Action>
    var game: S

    constructor (reduce: (S, Action) -> S, initial: S)
      ensures Valid() && actionLog == [] && this.reduce == reduce && this.initial == initial
    {
      this.reduce, this.initial, actionLog, game := reduce, initial, [], initial;
    }

    ghost function Computed(log: seq<Action>): S {
      Reduce(reduce, initial, EffectiveLog(log))
    }

    ghost predicate Valid()
      reads this
    {
      game == Computed(actionLog)
    }

    method ComputeStateFromLog(log: seq<Action>) returns (state: S)
      ensures state == Computed(log)
    {
      var undone := EffectivelyUndone(log);
      state := initial;
      for i := 0 to |log|
        invariant state == Reduce(reduce, initial, Sift(log[..i], undone))
      {
        assert log[..i + 1][..i] == log[..i];
        if log[i].id !in undone && !log[i].kind.Undo? {
          ghost var before := Sift(log[..i], undone);
          assert (before + [log[i]])[..|before|] == before;
          state := reduce(state, log[i]);
        } else {
          assert Sift(log[..i + 1], undone) == Sift(log[..i], undone);
        }
      }
      assert log[..|log|] == log;
    }

    method Held(id: Id) returns (held: bool)
      ensures held == Holds(actionLog, id)
    {
      held := false;
      for i := 0 to |actionLog|
        invariant held == Holds(actionLog[..i], id)
      {
        assert actionLog[..i + 1] == actionLog[..i] + [actionLog[i]];
        HoldsSnoc(actionLog[..i], actionLog[i], id);
        held := held || actionLog[i].id == id;
      }
      assert actionLog[..|actionLog|] == actionLog;
    }

    /** Append what is new; recompute for an UNDO, otherwise apply the one action. The state stays the computed one
        exactly if the action is in order, or out of order and without effect. */
    method Dispatch(action: Action)
      requires Valid()
      modifies this`actionLog, this`game
      ensures actionLog == Merge(old(actionLog), [action])
      ensures Valid() <==> InOrder(old(actionLog), action) || reduce(old(game), action) == old(game)
    {
      var held := Held(action.id);
      assert Merge(actionLog, [action]) == if held then actionLog else actionLog + [action];
      if held {
        return;
      }
      if !action.kind.Undo? {
        AppendIsIncrementalIff(actionLog, action);
        ghost var before := EffectiveLog(actionLog);
        assert (before + [action])[..|before|] == before;
      }
      actionLog := actionLog + [action];
      if action.kind.Undo? {
        game := ComputeStateFromLog(actionLog);
      } else {
        game := reduce(game, action);
      }
    }

    /** Over any stream of local and remote actions, duplicates and UNDOs included, the incremental game is the
        recomputed one, and the log is the merged one. */
    method DispatchAll(actions: seq<Action>)
      requires Valid() && AllInOrder(actionLog, actions)
      modifies this`actionLog, this`game
      ensures Valid() && actionLog == Merge(old(actionLog), actions)
    {
      for k := 0 to |actions|
        invariant Valid() && AllInOrder(actionLog, actions[k..])
        invariant Merge(actionLog, actions[k..]) == Merge(old(actionLog), actions)
      {
        assert actions[k..][..1] == [actions[k]] && actions[k..][1..] == actions[k + 1..];
        assert actions[k..] == [actions[k]] + actions[k + 1..];
        MergeConcat(actionLog, [actions[k]], actions[k + 1..]);
        Dispatch(actions[k]);
      }
    }
  }
}
