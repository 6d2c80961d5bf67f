/** Undo and redo over the append-only log behave as two stacks (frontend/game/historyManager.js). */
module UndoStacks {
  import opened Actions
  import opened Sync
  import opened History

  /** A play taken back, and the UNDO that took it back. */
  datatype Reverted = Reverted(action: Action, undoId: Id)

  datatype Stacks = Stacks(done: seq<Action>, redo: seq<Reverted>)

  /** The user plays, presses undo, or presses redo; the id is the one the appended entry will get. */
  datatype Gesture = Do(action: Action) | PressUndo(id: Id) | PressRedo(id: Id)

  /** What the code does, on the log alone. */
  ghost function Act(log: seq<Action>, gesture: Gesture): seq<Action> {
    match gesture
    case Do(a) => log + [a]
    case PressUndo(id) =>
      var target := Head(EffectiveLog(log));
      if target == NoId then log else log + [Action(id, Undo(target))]
    case PressRedo(id) =>
      var target := RedoTarget(log, Undone(log), log);
      if target == NoId then log else log + [Action(id, Undo(target))]
  }

  /** What two stacks would do. */
  function Push(st: Stacks, gesture: Gesture): Stacks {
    match gesture
    case Do(a) => Stacks(st.done + [a], [])
    case PressUndo(id) =>
      if st.done == [] then st
      else
        var n := |st.done| - 1;
        Stacks(st.done[..n], st.redo + [Reverted(st.done[n], id)])
    case PressRedo(id) =>
      if st.redo == [] then st
      else
        var n := |st.redo| - 1;
        Stacks(st.done + [st.redo[n].action], st.redo[..n])
  }

  method PressedUndo(log: seq<Action>, isReadOnly: bool, id: Id) returns (next: seq<Action>)
    ensures next == if isReadOnly then log else Act(log, PressUndo(id))
  {
    next := log;
    if !isReadOnly {
      var target := GetUndoTargetId(log);
      if target != NoId {
        next := log + [Action(id, Undo(target))];
      }
    }
  }

  method PressedRedo(log: seq<Action>, isReadOnly: bool, id: Id) returns (next: seq<Action>)
    ensures next == if isReadOnly then log else Act(log, PressRedo(id))
  {
    next := log;
    if !isReadOnly {
      var target := GetRedoTargetId(log);
      if target != NoId {
        next := log + [Action(id, Undo(target))];
      }
    }
  }

  ghost function Ids(redo: seq<Reverted>): set<Id> {
    set r | r in redo :: r.action.id
  }

  /** The plays on the redo stack, top first. */
  function Unplayed(redo: seq<Reverted>): seq<Action> {
    if redo == [] then [] else [redo[|redo| - 1].action] + Unplayed(redo[..|redo| - 1])
  }

  function UndoIds(redo: seq<Reverted>): seq<Id> {
    if redo == [] then [] else UndoIds(redo[..|redo| - 1]) + [redo[|redo| - 1].undoId]
  }

  /** Each reverted play has its own UNDO in the log, and no other live UNDO names it. */
  ghost predicate Solo(log: seq<Action>, r: Reverted) {
    && Action(r.undoId, Undo(r.action.id)) in log && r.undoId !in Undone(log)
    && !r.action.kind.Undo? && r.action.id in Undone(log)
    && forall j :: 0 <= j < |log| && Undoes(log[j]) && log[j].kind.refId == r.action.id && log[j].id !in Undone(log)
         ==> log[j].id == r.undoId
  }

  /** The log stands for the stacks. */
  ghost predicate Refines(log: seq<Action>, st: Stacks) {
    var kept := Undone(log) - Ids(st.redo);
    && WellFormed(log) && Named(log)
    && Sift(log, kept) == st.done + Unplayed(st.redo)
    && EndsLive(log, kept)
    && Redoable(log, Undone(log), log) == UndoIds(st.redo)
    && forall r :: r in st.redo ==> Solo(log, r)
  }

  /** A new entry gets an id nobody holds or names. */
  ghost predicate NewId(log: seq<Action>, id: Id) {
    && id != NoId && !Holds(log, id)
    && forall j :: 0 <= j < |log| && log[j].kind.Undo? ==> log[j].kind.refId != id
  }

  ghost predicate Admits(log: seq<Action>, gesture: Gesture) {
    match gesture
    case Do(a) => !a.kind.Undo? && NewId(log, a.id)
    case PressUndo(id) => NewId(log, id)
    case PressRedo(id) => NewId(log, id)
  }

  // ---- What the relation says ----

  lemma {:induction false} SiftMembers(log: seq<Action>, skip: set<Id>)
    ensures forall a :: a in Sift(log, skip) <==> a in log && !a.kind.Undo? && a.id !in skip
    ensures DistinctIds(log) ==> DistinctIds(Sift(log, skip))
    decreases |log|
  {
    if log != [] {
      var n := |log| - 1;
      assert log == log[..n] + [log[n]];
      SiftMembers(log[..n], skip);
      if DistinctIds(log) {
        assert DistinctIds(log[..n]);
      }
    }
  }

  lemma {:induction false} SiftMore(log: seq<Action>, skip: set<Id>, more: set<Id>, kept: seq<Action>, gone: seq<Action>)
    requires Sift(log, skip) == kept + gone
    requires forall a :: a in kept ==> a.id !in more
    requires forall a :: a in gone ==> a.id in more
    ensures Sift(log, skip + more) == kept
    decreases |log|
  {
    if log != [] {
      var n := |log| - 1;
      var last, all := log[n], kept + gone;
      if last.kind.Undo? || last.id in skip {
        SiftMore(log[..n], skip, more, kept, gone);
      } else {
        assert all == Sift(log[..n], skip) + [last];
        assert all[..|all| - 1] == Sift(log[..n], skip) && all[|all| - 1] == last;
        if gone != [] {
          var m := |gone| - 1;
          assert gone[m] == last && all[..|all| - 1] == kept + gone[..m];
          SiftMore(log[..n], skip, more, kept, gone[..m]);
        } else {
          var m := |kept| - 1;
          assert all == kept && all[..|all| - 1] == kept[..m] + [] && kept == kept[..m] + [last];
          SiftMore(log[..n], skip, more, kept[..m], []);
        }
      }
    }
  }

  lemma {:induction false} UnplayedIsReversed(redo: seq<Reverted>)
    ensures |Unplayed(redo)| == |redo|
    ensures forall i :: 0 <= i < |redo| ==> Unplayed(redo)[i] == redo[|redo| - 1 - i].action
    decreases |redo|
  {
    if redo != [] {
      UnplayedIsReversed(redo[..|redo| - 1]);
    }
  }

  lemma DoneIsNotReverted(done: seq<Action>, redo: seq<Reverted>)
    requires DistinctIds(done + Unplayed(redo))
    ensures forall a :: a in done ==> a.id !in Ids(redo)
  {
    UnplayedIsReversed(redo);
    var all := done + Unplayed(redo);
    forall k, i | 0 <= k < |done| && 0 <= i < |redo|
      ensures done[k].id != redo[i].action.id
    {
      assert Unplayed(redo)[|redo| - 1 - i] == redo[i].action;
      assert all[k].id != all[|done| + |redo| - 1 - i].id;
    }
  }

  lemma RevertedAreUndone(log: seq<Action>, st: Stacks)
    requires Refines(log, st)
    ensures Undone(log) - Ids(st.redo) + Ids(st.redo) == Undone(log)
  {
    hide Redoable, Sift, EndsLive, WellFormed;
    forall r | r in st.redo
      ensures r.action.id in Undone(log)
    {
      assert Solo(log, r);
    }
  }

  /** The effective log is the done stack. */
  lemma EffectiveIsDone(log: seq<Action>, st: Stacks)
    requires Refines(log, st)
    ensures EffectiveLog(log) == st.done
    ensures forall a :: a in st.done ==> a in log && !a.kind.Undo? && a.id !in Undone(log)
    ensures DistinctIds(st.done + Unplayed(st.redo))
    ensures forall r :: r in st.redo ==> r.action in log
  {
    hide Redoable, EndsLive, Solo, Sift;
    var kept := Undone(log) - Ids(st.redo);
    SiftMembers(log, kept);
    UnplayedIsReversed(st.redo);
    DoneIsNotReverted(st.done, st.redo);
    SiftMore(log, kept, Ids(st.redo), st.done, Unplayed(st.redo));
    RevertedAreUndone(log, st);
    SiftMembers(log, Undone(log));
    forall r | r in st.redo
      ensures r.action in log
    {
      var i :| 0 <= i < |st.redo| && st.redo[i] == r;
      assert Unplayed(st.redo)[|st.redo| - 1 - i] == st.redo[i].action;
      assert r.action in Sift(log, kept);
    }
  }

  lemma NothingToRedo(log: seq<Action>, st: Stacks)
    requires Refines(log, st)
    ensures st.redo == [] ==> Redoable(log, Undone(log), log) == [] && EndsLive(log, Undone(log))
    ensures st.redo != [] ==> Last(Redoable(log, Undone(log), log)) == st.redo[|st.redo| - 1].undoId != NoId
  {
    if st.redo == [] {
      assert Undone(log) - Ids([]) == Undone(log);
    } else {
      var r := st.redo[|st.redo| - 1];
      assert Solo(log, r);
      var j :| 0 <= j < |log| && log[j] == Action(r.undoId, Undo(r.action.id));
      assert log[j].id != NoId;
    }
  }

  lemma RedoTakesTheTop(log: seq<Action>, st: Stacks)
    requires Refines(log, st)
    ensures RedoTarget(log, Undone(log), log) == if st.redo == [] then NoId else st.redo[|st.redo| - 1].undoId
  {
    NothingToRedo(log, st);
    RedoTargetIsLast(log, Undone(log), log);
  }

  /** Undo takes back the top of the done stack; redo names the live UNDO of the top of the redo stack, or nothing
      exactly when that stack is empty. */
  lemma TargetsAreTheTops(log: seq<Action>, st: Stacks)
    requires Refines(log, st)
    ensures Head(EffectiveLog(log)) == Head(st.done)
    ensures Head(EffectiveLog(log)) == NoId <==> st.done == []
    ensures RedoTarget(log, Undone(log), log) == NoId <==> st.redo == []
    ensures st.redo != [] ==> var top := st.redo[|st.redo| - 1];
              Action(RedoTarget(log, Undone(log), log), Undo(top.action.id)) in log
  {
    EffectiveIsDone(log, st);
    NothingToRedo(log, st);
    RedoTakesTheTop(log, st);
    if st.done != [] {
      assert st.done[|st.done| - 1] in log;
    }
    if st.redo != [] {
      assert Solo(log, st.redo[|st.redo| - 1]);
    }
  }

  // ---- Appending an UNDO ----

  lemma StaysWellFormed(log: seq<Action>, a: Action)
    requires WellFormed(log) && Named(log) && NewId(log, a.id)
    requires Undoes(a) ==> a.kind.refId != a.id
    ensures WellFormed(log + [a]) && Named(log + [a]) && a.id !in Undone(log)
  {
    var next := log + [a];
    forall i, j | 0 <= i < j < |next|
      ensures next[i].id != next[j].id
    {
      if j == |log| {
        assert log[i].id != a.id;
      }
    }
    ScanMember(log, {}, a.id);
  }

  lemma UndoneMember(log: seq<Action>, id: Id)
    requires WellFormed(log)
    ensures id in Undone(log) <==>
              exists j :: 0 <= j < |log| && Undoes(log[j]) && log[j].kind.refId == id && log[j].id !in Undone(log)
  {
    ScanMember(log, {}, id);
  }

  /** After an UNDO of a play that counts, the play is cancelled and nothing else changes. */
  lemma UndoOfPlay(log: seq<Action>, undo: Action, play: Action)
    requires WellFormed(log) && Named(log) && NewId(log, undo.id)
    requires play in log && !play.kind.Undo? && play.id !in Undone(log) && undo.kind == Undo(play.id)
    ensures forall k :: 0 <= k < |log| ==> (log[k].id in Undone(log + [undo]) <==> log[k].id in Undone(log) || log[k].id == play.id)
    ensures undo.id !in Undone(log + [undo])
  {
    hide Undone;
    var next, u := log + [undo], Undone(log) + {play.id};
    var p :| 0 <= p < |log| && log[p] == play;
    assert log[p].id != undo.id;
    StaysWellFormed(log, undo);
    forall k | 0 <= k < |next|
      ensures next[k].id in u <==> Cancelled(next, u, k)
    {
      UndoneMember(log, next[k].id);
      if k < |log| && next[k].id in u {
        if next[k].id == play.id {
          assert Undoes(next[|log|]);
        } else {
          var j :| 0 <= j < |log| && Undoes(log[j]) && log[j].kind.refId == log[k].id && log[j].id !in Undone(log);
          assert j != p;
          assert next[j] == log[j];
        }
      }
      if Cancelled(next, u, k) {
        var j :| k < j < |next| && Undoes(next[j]) && next[j].kind.refId == next[k].id && next[j].id !in u;
        assert j < |log| ==> next[j] == log[j];
      }
    }
    ScanIsTheOnlySolution(next, u);
    assert next[|log|] == undo;
    forall k | 0 <= k < |log|
      ensures log[k].id in Undone(next) <==> log[k].id in u
    {
      assert next[k] == log[k];
    }
  }

  lemma RedoSolvesAt(log: seq<Action>, redo: Action, r: Reverted, u: set<Id>, k: nat)
    requires WellFormed(log) && Named(log) && NewId(log, redo.id) && k <= |log|
    requires Solo(log, r) && r.action in log && redo.kind == Undo(r.undoId)
    requires u == Undone(log) - {r.action.id} + {r.undoId}
    ensures (log + [redo])[k].id in u <==> Cancelled(log + [redo], u, k)
  {
    hide Undone;
    var next := log + [redo];
    var p :| 0 <= p < |log| && log[p] == r.action;
    var v :| 0 <= v < |log| && log[v] == Action(r.undoId, Undo(r.action.id));
    assert log[p].id != redo.id && log[v].id != redo.id && p != v && next[|log|] == redo;
    UndoneMember(log, next[k].id);
    if k == |log| {
      StaysWellFormed(log, redo);
    } else if log[k].id == r.undoId {
      assert k == v && Undoes(next[|log|]);
      StaysWellFormed(log, redo);
    } else {
      forall j | 0 <= j < |log| && Undoes(log[j]) && log[j].kind.refId == log[k].id
        ensures j != p && (j == v <==> log[j].id == r.undoId)
      {
      }
      if log[k].id in u {
        var j :| 0 <= j < |log| && Undoes(log[j]) && log[j].kind.refId == log[k].id && log[j].id !in Undone(log);
        assert next[j] == log[j];
      }
      if Cancelled(next, u, k) {
        var j :| k < j < |next| && Undoes(next[j]) && next[j].kind.refId == next[k].id && next[j].id !in u;
        assert j < |log| && next[j] == log[j];
      }
    }
  }

  /** After an UNDO of the one live UNDO of a play, the play counts again. */
  lemma UndoOfUndo(log: seq<Action>, redo: Action, r: Reverted)
    requires WellFormed(log) && Named(log) && NewId(log, redo.id)
    requires Solo(log, r) && r.action in log && redo.kind == Undo(r.undoId)
    ensures forall k :: 0 <= k < |log| ==>
              (log[k].id in Undone(log + [redo]) <==> (log[k].id in Undone(log) && log[k].id != r.action.id) || log[k].id == r.undoId)
    ensures redo.id !in Undone(log + [redo])
  {
    hide Undone, Cancelled;
    var next, u := log + [redo], Undone(log) - {r.action.id} + {r.undoId};
    var v :| 0 <= v < |log| && log[v] == Action(r.undoId, Undo(r.action.id));
    assert log[v].id != redo.id;
    StaysWellFormed(log, redo);
    forall k | 0 <= k < |next|
      ensures next[k].id in u <==> Cancelled(next, u, k)
    {
      RedoSolvesAt(log, redo, r, u, k);
    }
    ScanIsTheOnlySolution(next, u);
    assert next[|log|] == redo && redo.id !in u;
    forall k | 0 <= k < |log|
      ensures log[k].id in Undone(next) <==> log[k].id in u
    {
      assert next[k] == log[k];
    }
  }

  // ---- Each gesture keeps the relation ----

  lemma SameIsPlay(log: seq<Action>, undo: Action, id: Id)
    requires undo.kind.Undo? && id != undo.id
    ensures IsPlay(log + [undo], id) <==> IsPlay(log, id)
  {
    assert (log + [undo])[..|log|] == log;
  }

  /** The same UNDOs are live, and name the same plays. */
  ghost predicate SameUndos(log: seq<Action>, u: set<Id>, v: set<Id>, all: seq<Action>, more: seq<Action>) {
    forall k :: 0 <= k < |log| && log[k].kind.Undo?
      ==> (log[k].id in u <==> log[k].id in v) && (IsPlay(all, log[k].kind.refId) <==> IsPlay(more, log[k].kind.refId))
  }

  lemma {:induction false} RedoableDepends(log: seq<Action>, u: set<Id>, v: set<Id>, all: seq<Action>, more: seq<Action>)
    requires SameUndos(log, u, v, all, more)
    ensures Redoable(log, u, all) == Redoable(log, v, more)
    decreases |log|
  {
    hide IsPlay;
    if log != [] {
      RedoableDepends(log[..|log| - 1], u, v, all, more);
    }
  }

  lemma {:induction false} RedoableDrop(log: seq<Action>, u: set<Id>, v: set<Id>, all: seq<Action>, more: seq<Action>, gone: Id)
    requires DistinctIds(log) && Redoable(log, u, all) != [] && Last(Redoable(log, u, all)) == gone
    requires SameUndos(log, u + {gone}, v, all, more)
    ensures Redoable(log, v, more) == Redoable(log, u, all)[..|Redoable(log, u, all)| - 1]
    decreases |log|
  {
    hide IsPlay;
    var n := |log| - 1;
    var rest := log[..n];
    if log[n].id !in u && IsPlay(all, log[n].kind.refId) {
      assert log[n].id == gone;
      forall k | 0 <= k < n
        ensures rest[k].id != gone
      {
      }
      RedoableDepends(rest, u, v, all, more);
    } else {
      RedoableDrop(rest, u, v, all, more, gone);
      RedoableIsFromLog(rest, u, all);
    }
  }

  lemma {:induction false} RedoableIsFromLog(log: seq<Action>, u: set<Id>, all: seq<Action>)
    ensures forall id :: id in Redoable(log, u, all) ==> exists k :: 0 <= k < |log| && log[k].id == id
    decreases |log|
  {
    hide IsPlay;
    if log != [] {
      RedoableIsFromLog(log[..|log| - 1], u, all);
    }
  }

  lemma {:induction false} EndsLiveDepends(log: seq<Action>, u: set<Id>, v: set<Id>)
    requires forall k :: 0 <= k < |log| && !log[k].kind.Undo? ==> (log[k].id in u <==> log[k].id in v)
    ensures EndsLive(log, u) == EndsLive(log, v)
    decreases |log|
  {
    if log != [] {
      EndsLiveDepends(log[..|log| - 1], u, v);
    }
  }

  /** An appended UNDO that leaves the kept plays alone leaves their order alone too. */
  lemma KeptPlaysStay(log: seq<Action>, undo: Action, u: set<Id>, v: set<Id>)
    requires undo.kind.Undo?
    requires forall k :: 0 <= k < |log| && !log[k].kind.Undo? ==> (log[k].id in u <==> log[k].id in v)
    ensures Sift(log + [undo], v) == Sift(log, u)
    ensures EndsLive(log + [undo], v) == EndsLive(log, u)
  {
    assert (log + [undo])[..|log|] == log;
    SiftDependsOnEntries(log, u, v);
    EndsLiveDepends(log, u, v);
  }

  lemma DoRefines(log: seq<Action>, st: Stacks, a: Action)
    requires Refines(log, st) && Admits(log, Do(a))
    ensures Refines(log + [a], Push(st, Do(a)))
  {
    var next := log + [a];
    assert next[..|log|] == log;
    EffectiveIsDone(log, st);
    StaysWellFormed(log, a);
    AppendIsIncrementalIff(log, a);
    assert Undone(next) - Ids([]) == Undone(next);
    assert Unplayed([]) == [] && st.done + [a] + [] == st.done + [a];
  }

  lemma UndoKeepsSolo(log: seq<Action>, undo: Action, play: Action, r: Reverted)
    requires WellFormed(log) && Named(log) && NewId(log, undo.id)
    requires play in log && !play.kind.Undo? && play.id !in Undone(log) && undo.kind == Undo(play.id)
    requires Solo(log, r) && r.action in log
    ensures Solo(log + [undo], r)
  {
    hide Undone;
    var next := log + [undo];
    UndoOfPlay(log, undo, play);
    PlaysAreNotUndos(log, play);
    var v :| 0 <= v < |log| && log[v] == Action(r.undoId, Undo(r.action.id));
    var p :| 0 <= p < |log| && log[p] == r.action;
    assert next[v] == log[v] && next[|log|] == undo;
    forall j | 0 <= j < |next| && Undoes(next[j]) && next[j].kind.refId == r.action.id && next[j].id !in Undone(next)
      ensures next[j].id == r.undoId
    {
      assert j < |log| && next[j] == log[j];
    }
  }

  lemma PlaysAreNotUndos(log: seq<Action>, play: Action)
    requires DistinctIds(log) && play in log && !play.kind.Undo?
    ensures forall k :: 0 <= k < |log| && log[k].kind.Undo? ==> log[k].id != play.id
  {
    var p :| 0 <= p < |log| && log[p] == play;
  }

  lemma UndoneIsSolo(log: seq<Action>, undo: Action, play: Action)
    requires WellFormed(log) && Named(log) && NewId(log, undo.id)
    requires play in log && !play.kind.Undo? && play.id !in Undone(log) && undo.kind == Undo(play.id)
    ensures Solo(log + [undo], Reverted(play, undo.id))
  {
    hide Undone;
    var next := log + [undo];
    UndoOfPlay(log, undo, play);
    PlaysAreNotUndos(log, play);
    UndoneMember(log, play.id);
    assert next[|log|] == undo;
    var p :| 0 <= p < |log| && log[p] == play;
    assert forall j :: 0 <= j < |log| ==> next[j] == log[j];
  }

  lemma UndoKeepsPlays(log: seq<Action>, st: Stacks, play: Action, id: Id)
    requires Refines(log, st) && NewId(log, id) && st.done != [] && play == st.done[|st.done| - 1]
    ensures var next, redo := log + [Action(id, Undo(play.id))], st.redo + [Reverted(play, id)];
            && Sift(next, Undone(next) - Ids(redo)) == st.done + Unplayed(st.redo)
            && EndsLive(next, Undone(next) - Ids(redo))
  {
    hide Undone, Solo, Sift, EndsLive, Redoable, Unplayed;
    EffectiveIsDone(log, st);
    assert play in st.done;
    var undo, redo := Action(id, Undo(play.id)), st.redo + [Reverted(play, id)];
    UndoOfPlay(log, undo, play);
    assert Ids(redo) == Ids(st.redo) + {play.id};
    KeptPlaysStay(log, undo, Undone(log) - Ids(st.redo), Undone(log + [undo]) - Ids(redo));
  }

  lemma UndoKeepsAllSolo(log: seq<Action>, st: Stacks, play: Action, id: Id)
    requires Refines(log, st) && NewId(log, id) && st.done != [] && play == st.done[|st.done| - 1]
    ensures forall q :: q in st.redo + [Reverted(play, id)] ==> Solo(log + [Action(id, Undo(play.id))], q)
  {
    hide Undone, Solo, Sift, EndsLive, Redoable, Unplayed;
    EffectiveIsDone(log, st);
    assert play in st.done;
    var undo := Action(id, Undo(play.id));
    forall q | q in st.redo
      ensures Solo(log + [undo], q)
    {
      UndoKeepsSolo(log, undo, play, q);
    }
    UndoneIsSolo(log, undo, play);
  }

  lemma PushedUndo(st: Stacks, play: Action, id: Id)
    requires st.done != [] && play == st.done[|st.done| - 1]
    ensures var st1 := Push(st, PressUndo(id));
            && st1.redo == st.redo + [Reverted(play, id)]
            && st1.done + Unplayed(st1.redo) == st.done + Unplayed(st.redo)
            && UndoIds(st1.redo) == UndoIds(st.redo) + [id]
  {
    var n, redo := |st.done| - 1, st.redo + [Reverted(play, id)];
    assert redo[..|st.redo|] == st.redo && st.done == st.done[..n] + [play];
  }

  lemma UndoRefines(log: seq<Action>, st: Stacks, id: Id)
    requires Refines(log, st) && Admits(log, PressUndo(id)) && st.done != []
    ensures Refines(Act(log, PressUndo(id)), Push(st, PressUndo(id)))
  {
    hide Undone, Solo, Sift, EndsLive, Redoable, Push, Unplayed, UndoIds;
    var play := st.done[|st.done| - 1];
    var undo := Action(id, Undo(play.id));
    EffectiveIsDone(log, st);
    TargetsAreTheTops(log, st);
    assert play in st.done && Act(log, PressUndo(id)) == log + [undo];
    StaysWellFormed(log, undo);
    UndoKeepsPlays(log, st, play, id);
    UndoKeepsAllSolo(log, st, play, id);
    RedoableAfterUndo(log, undo, play);
    PushedUndo(st, play, id);
  }

  lemma RedoableAfterUndo(log: seq<Action>, undo: Action, play: Action)
    requires WellFormed(log) && Named(log) && NewId(log, undo.id)
    requires play in log && !play.kind.Undo? && play.id !in Undone(log) && undo.kind == Undo(play.id)
    ensures Redoable(log + [undo], Undone(log + [undo]), log + [undo]) == Redoable(log, Undone(log), log) + [undo.id]
  {
    hide Undone, IsPlay;
    var next := log + [undo];
    assert next[..|log|] == log && next[|log|] == undo;
    UndoOfPlay(log, undo, play);
    PlaysAreNotUndos(log, play);
    assert IsPlay(next, play.id) by {
      var p :| 0 <= p < |log| && log[p] == play;
      PlayAt(next, p);
    }
    assert SameUndos(log, Undone(log), Undone(next), log, next) by {
      forall k | 0 <= k < |log| && log[k].kind.Undo?
        ensures IsPlay(log, log[k].kind.refId) <==> IsPlay(next, log[k].kind.refId)
      {
        SameIsPlay(log, undo, log[k].kind.refId);
      }
    }
    RedoableDepends(log, Undone(log), Undone(next), log, next);
  }

  lemma {:induction false} PlayAt(log: seq<Action>, p: nat)
    requires DistinctIds(log) && p < |log| && !log[p].kind.Undo?
    ensures IsPlay(log, log[p].id)
    decreases |log|
  {
    if p < |log| - 1 {
      PlayAt(log[..|log| - 1], p);
    }
  }

  lemma RedoableAfterRedo(log: seq<Action>, redo: Action, r: Reverted)
    requires WellFormed(log) && Named(log) && NewId(log, redo.id)
    requires Solo(log, r) && r.action in log && redo.kind == Undo(r.undoId)
    requires Redoable(log, Undone(log), log) != [] && Last(Redoable(log, Undone(log), log)) == r.undoId
    ensures var before := Redoable(log, Undone(log), log);
            Redoable(log + [redo], Undone(log + [redo]), log + [redo]) == before[..|before| - 1]
  {
    hide Undone, IsPlay;
    var next := log + [redo];
    assert next[..|log|] == log && next[|log|] == redo;
    UndoOfUndo(log, redo, r);
    PlaysAreNotUndos(log, r.action);
    assert !IsPlay(next, r.undoId) by {
      SameIsPlay(log, redo, r.undoId);
      UndoIsNoPlay(log, Action(r.undoId, Undo(r.action.id)));
    }
    assert SameUndos(log, Undone(log) + {r.undoId}, Undone(next), log, next) by {
      forall k | 0 <= k < |log| && log[k].kind.Undo?
        ensures IsPlay(log, log[k].kind.refId) <==> IsPlay(next, log[k].kind.refId)
      {
        SameIsPlay(log, redo, log[k].kind.refId);
      }
    }
    RedoableDrop(log, Undone(log), Undone(next), log, next, r.undoId);
  }

  lemma {:induction false} UndoIsNoPlay(log: seq<Action>, undo: Action)
    requires DistinctIds(log) && undo in log && undo.kind.Undo?
    ensures !IsPlay(log, undo.id)
    decreases |log|
  {
    var v :| 0 <= v < |log| && log[v] == undo;
    if v < |log| - 1 {
      assert undo == log[..|log| - 1][v];
      UndoIsNoPlay(log[..|log| - 1], undo);
    }
  }

  lemma RedoKeepsSolo(log: seq<Action>, redo: Action, r: Reverted, q: Reverted)
    requires WellFormed(log) && Named(log) && NewId(log, redo.id)
    requires Solo(log, r) && r.action in log && redo.kind == Undo(r.undoId)
    requires Solo(log, q) && q.action in log && q.action.id != r.action.id
    ensures Solo(log + [redo], q)
  {
    hide Undone;
    var next := log + [redo];
    UndoOfUndo(log, redo, r);
    PlaysAreNotUndos(log, r.action);
    PlaysAreNotUndos(log, q.action);
    var v :| 0 <= v < |log| && log[v] == Action(q.undoId, Undo(q.action.id));
    var w :| 0 <= w < |log| && log[w] == Action(r.undoId, Undo(r.action.id));
    var p :| 0 <= p < |log| && log[p] == q.action;
    assert v != w && next[v] == log[v] && next[|log|] == redo;
    forall j | 0 <= j < |next| && Undoes(next[j]) && next[j].kind.refId == q.action.id && next[j].id !in Undone(next)
      ensures next[j].id == q.undoId
    {
      assert j < |log| && next[j] == log[j];
    }
  }

  lemma RevertedAreDistinct(log: seq<Action>, st: Stacks)
    requires Refines(log, st) && st.redo != []
    ensures var n := |st.redo| - 1;
            && (forall q :: q in st.redo[..n] ==> q.action.id != st.redo[n].action.id)
            && Ids(st.redo[..n]) == Ids(st.redo) - {st.redo[n].action.id}
  {
    hide Undone, Solo, Sift, EndsLive, Redoable;
    EffectiveIsDone(log, st);
    UnplayedIsReversed(st.redo);
    var n, all := |st.redo| - 1, st.done + Unplayed(st.redo);
    forall i | 0 <= i < n
      ensures st.redo[i].action.id != st.redo[n].action.id
    {
      assert Unplayed(st.redo)[0] == st.redo[n].action && Unplayed(st.redo)[n - i] == st.redo[i].action;
      assert all[|st.done|].id != all[|st.done| + n - i].id;
    }
  }

  lemma RedoKeepsPlays(log: seq<Action>, st: Stacks, id: Id)
    requires Refines(log, st) && NewId(log, id) && st.redo != []
    ensures var n := |st.redo| - 1;
            var next := log + [Action(id, Undo(st.redo[n].undoId))];
            && Sift(next, Undone(next) - Ids(st.redo[..n])) == st.done + Unplayed(st.redo)
            && EndsLive(next, Undone(next) - Ids(st.redo[..n]))
  {
    hide Undone, Solo, Sift, EndsLive, Redoable, Unplayed;
    var n := |st.redo| - 1;
    var r := st.redo[n];
    var redo := Action(id, Undo(r.undoId));
    EffectiveIsDone(log, st);
    RevertedAreDistinct(log, st);
    assert r in st.redo;
    UndoOfUndo(log, redo, r);
    UndoIsNoPlayId(log, r);
    KeptPlaysStay(log, redo, Undone(log) - Ids(st.redo), Undone(log + [redo]) - Ids(st.redo[..n]));
  }

  lemma RedoKeepsAllSolo(log: seq<Action>, st: Stacks, id: Id)
    requires Refines(log, st) && NewId(log, id) && st.redo != []
    ensures var n := |st.redo| - 1;
            forall q :: q in st.redo[..n] ==> Solo(log + [Action(id, Undo(st.redo[n].undoId))], q)
  {
    hide Undone, Solo, Sift, EndsLive, Redoable, Unplayed;
    var n := |st.redo| - 1;
    EffectiveIsDone(log, st);
    RevertedAreDistinct(log, st);
    assert st.redo[n] in st.redo;
    forall q | q in st.redo[..n]
      ensures Solo(log + [Action(id, Undo(st.redo[n].undoId))], q)
    {
      assert q in st.redo;
      RedoKeepsSolo(log, Action(id, Undo(st.redo[n].undoId)), st.redo[n], q);
    }
  }

  lemma PushedRedo(st: Stacks, id: Id)
    requires st.redo != []
    ensures var n, st1 := |st.redo| - 1, Push(st, PressRedo(id));
            && st1.redo == st.redo[..n]
            && st1.done == st.done + [st.redo[n].action]
            && st1.done + Unplayed(st1.redo) == st.done + Unplayed(st.redo)
            && UndoIds(st.redo) == UndoIds(st1.redo) + [st.redo[n].undoId]
  {
  }

  lemma RedoRefines(log: seq<Action>, st: Stacks, id: Id)
    requires Refines(log, st) && Admits(log, PressRedo(id)) && st.redo != []
    ensures Refines(Act(log, PressRedo(id)), Push(st, PressRedo(id)))
  {
    hide Undone, Solo, Sift, EndsLive, Redoable, RedoTarget, Push, Unplayed, UndoIds;
    var r := st.redo[|st.redo| - 1];
    var redo := Action(id, Undo(r.undoId));
    EffectiveIsDone(log, st);
    NothingToRedo(log, st);
    RedoTakesTheTop(log, st);
    assert r in st.redo && Act(log, PressRedo(id)) == log + [redo];
    SoloFacts(log, r, id);
    StaysWellFormed(log, redo);
    RedoKeepsPlays(log, st, id);
    RedoKeepsAllSolo(log, st, id);
    RedoableAfterRedo(log, redo, r);
    PushedRedo(st, id);
  }

  lemma SoloFacts(log: seq<Action>, r: Reverted, id: Id)
    requires Solo(log, r) && NewId(log, id)
    ensures !r.action.kind.Undo? && r.undoId != id
  {
  }

  lemma UndoIsNoPlayId(log: seq<Action>, r: Reverted)
    requires DistinctIds(log) && Solo(log, r)
    ensures forall k :: 0 <= k < |log| && !log[k].kind.Undo? ==> log[k].id != r.undoId
  {
    var v :| 0 <= v < |log| && log[v] == Action(r.undoId, Undo(r.action.id));
  }

  lemma GestureRefines(log: seq<Action>, st: Stacks, gesture: Gesture)
    requires Refines(log, st) && Admits(log, gesture)
    ensures Refines(Act(log, gesture), Push(st, gesture))
  {
    hide Refines;
    match gesture
    case Do(a) => DoRefines(log, st, a);
    case PressUndo(id) =>
      if st.done == [] { TargetsAreTheTops(log, st); } else { UndoRefines(log, st, id); }
    case PressRedo(id) =>
      if st.redo == [] { TargetsAreTheTops(log, st); } else { RedoRefines(log, st, id); }
  }

  ghost function Session(log: seq<Action>, gestures: seq<Gesture>): seq<Action>
    decreases |gestures|
  {
    if gestures == [] then log else Session(Act(log, gestures[0]), gestures[1..])
  }

  function Pushes(st: Stacks, gestures: seq<Gesture>): Stacks
    decreases |gestures|
  {
    if gestures == [] then st else Pushes(Push(st, gestures[0]), gestures[1..])
  }

  ghost predicate AdmitsAll(log: seq<Action>, gestures: seq<Gesture>)
    decreases |gestures|
  {
    gestures == [] || (Admits(log, gestures[0]) && AdmitsAll(Act(log, gestures[0]), gestures[1..]))
  }

  lemma {:induction false} SessionRefines(log: seq<Action>, st: Stacks, gestures: seq<Gesture>)
    requires Refines(log, st) && AdmitsAll(log, gestures)
    ensures Refines(Session(log, gestures), Pushes(st, gestures))
    decreases |gestures|
  {
    hide Refines, Act, Push, Admits;
    if gestures != [] {
      GestureRefines(log, st, gestures[0]);
      SessionRefines(Act(log, gestures[0]), Push(st, gestures[0]), gestures[1..]);
    }
  }

  /** Whatever the user does from an empty log on, the log behaves as the two stacks: what counts is the done stack,
      undo names its top, redo names the live UNDO of the other stack's top, and each is void on an empty stack. */
  lemma LogIsTwoStacks(gestures: seq<Gesture>)
    requires AdmitsAll([], gestures)
    ensures var log, st := Session([], gestures), Pushes(Stacks([], []), gestures);
            && EffectiveLog(log) == st.done
            && (Head(EffectiveLog(log)) == NoId <==> st.done == [])
            && (RedoTarget(log, Undone(log), log) == NoId <==> st.redo == [])
            && (st.redo != [] ==> RedoTarget(log, Undone(log), log) == st.redo[|st.redo| - 1].undoId)
  {
    hide Refines, Admits, Act, Push;
    var log, st := Session([], gestures), Pushes(Stacks([], []), gestures);
    NothingIsNothing();
    SessionRefines([], Stacks([], []), gestures);
    EffectiveIsDone(log, st);
    RedoTakesTheTop(log, st);
    TargetsAreTheTops(log, st);
  }

  lemma NothingIsNothing()
    ensures Refines([], Stacks([], []))
  {
  }
}
