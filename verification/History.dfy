/** Append-only undo and redo (frontend/reducer.js, frontend/game/historyManager.js): an UNDO entry cancels the
    entry it names, which may itself be an UNDO. One backward scan finds what is cancelled. */
module History {
  import opened Actions
  import opened Sync

  /** An UNDO that names something. */
  predicate Undoes(a: Action) {
    a.kind.Undo? && a.kind.refId != NoId
  }

  ghost function Scan(log: seq<Action>, undone: set<Id>): set<Id>
    decreases |log|
  {
    if log == [] then undone
    else
      var n := |log| - 1;
      Scan(log[..n], if log[n].id !in undone && Undoes(log[n]) then undone + {log[n].kind.refId} else undone)
  }

  ghost function Undone(log: seq<Action>): set<Id> {
    Scan(log, {})
  }

  /** The ids are distinct, and an UNDO names an earlier entry, if any. */
  ghost predicate WellFormed(log: seq<Action>) {
    && DistinctIds(log)
    && forall i, k :: 0 <= i < |log| && 0 <= k < |log| && Undoes(log[i]) && log[k].id == log[i].kind.refId ==> k < i
  }

  /** The rule the scan is meant to solve: an entry is cancelled iff a later UNDO that is not cancelled names it. */
  ghost predicate Cancelled(log: seq<Action>, undone: set<Id>, k: int)
    requires 0 <= k < |log|
  {
    exists j :: k < j < |log| && Undoes(log[j]) && log[j].kind.refId == log[k].id && log[j].id !in undone
  }

  ghost predicate Solves(log: seq<Action>, undone: set<Id>) {
    forall k :: 0 <= k < |log| ==> (log[k].id in undone <==> Cancelled(log, undone, k))
  }

  /** The entries that count: no UNDO, none of the skipped ids. */
  ghost function Sift(log: seq<Action>, skip: set<Id>): seq<Action>
    decreases |log|
  {
    if log == [] then []
    else
      var n := |log| - 1;
      Sift(log[..n], skip) + if log[n].kind.Undo? || log[n].id in skip then [] else [log[n]]
  }

  ghost function EffectiveLog(log: seq<Action>): seq<Action> {
    Sift(log, Undone(log))
  }

  method EffectivelyUndone(log: seq<Action>) returns (undone: set<Id>)
    ensures undone == Undone(log)
  {
    undone := {};
    var i := |log| - 1;
    assert log[..i + 1] == log;
    while i >= 0
      invariant -1 <= i < |log| && Scan(log[..i + 1], undone) == Undone(log)
    {
      assert log[..i + 1][..i] == log[..i];
      if log[i].id !in undone && Undoes(log[i]) {
        undone := undone + {log[i].kind.refId};
      }
      i := i - 1;
    }
  }

  method GetEffectiveLog(log: seq<Action>) returns (effective: seq<Action>)
    ensures effective == EffectiveLog(log)
  {
    var undone := EffectivelyUndone(log);
    effective := [];
    for i := 0 to |log|
      invariant effective == Sift(log[..i], undone)
    {
      assert log[..i + 1][..i] == log[..i];
      if log[i].id !in undone && !log[i].kind.Undo? {
        effective := effective + [log[i]];
      }
    }
    assert log[..|log|] == log;
  }

  // ---- The scan solves the rule, and nothing else does ----

  lemma PrefixIsWellFormed(log: seq<Action>, n: nat)
    requires WellFormed(log) && n <= |log|
    ensures WellFormed(log[..n])
  {
  }

  lemma {:induction false} ScanMember(log: seq<Action>, undone: set<Id>, id: Id)
    requires WellFormed(log)
    ensures var result := Scan(log, undone);
            id in result <==> (id in undone
              || exists j :: 0 <= j < |log| && Undoes(log[j]) && log[j].kind.refId == id && log[j].id !in result)
    decreases |log|
  {
    if log != [] {
      var n := |log| - 1;
      var last, rest := log[n], log[..n];
      var next := if last.id !in undone && Undoes(last) then undone + {last.kind.refId} else undone;
      PrefixIsWellFormed(log, n);
      ScanMember(rest, next, id);
      ScanMember(rest, next, last.id);
      var result := Scan(rest, next);
      assert last.id in result <==> last.id in undone by {
        if j :| 0 <= j < |rest| && Undoes(rest[j]) && rest[j].kind.refId == last.id {
          assert log[j] == rest[j];
        }
      }
      forall j | 0 <= j < |rest|
        ensures rest[j] == log[j]
      {
      }
    }
  }

  lemma ScanSolvesTheRule(log: seq<Action>)
    requires WellFormed(log)
    ensures Solves(log, Undone(log))
  {
    forall k | 0 <= k < |log|
      ensures log[k].id in Undone(log) <==> Cancelled(log, Undone(log), k)
    {
      ScanMember(log, {}, log[k].id);
    }
  }

  lemma {:induction false} SolutionsAgreeAt(log: seq<Action>, u: set<Id>, v: set<Id>, k: nat)
    requires Solves(log, u) && Solves(log, v) && k < |log|
    ensures log[k].id in u <==> log[k].id in v
    decreases |log| - k
  {
    forall j | k < j < |log|
      ensures log[j].id in u <==> log[j].id in v
    {
      SolutionsAgreeAt(log, u, v, j);
    }
    assert Cancelled(log, u, k) <==> Cancelled(log, v, k);
  }

  /** Whatever else solves the rule agrees with the scan on every entry. */
  lemma ScanIsTheOnlySolution(log: seq<Action>, other: set<Id>)
    requires WellFormed(log) && Solves(log, other)
    ensures forall k :: 0 <= k < |log| ==> (log[k].id in Undone(log) <==> log[k].id in other)
    ensures Sift(log, other) == EffectiveLog(log)
  {
    ScanSolvesTheRule(log);
    forall k | 0 <= k < |log|
      ensures log[k].id in Undone(log) <==> log[k].id in other
    {
      SolutionsAgreeAt(log, Undone(log), other, k);
    }
    SiftDependsOnEntries(log, Undone(log), other);
  }

  lemma {:induction false} SiftDependsOnEntries(log: seq<Action>, u: set<Id>, v: set<Id>)
    requires forall k :: 0 <= k < |log| && !log[k].kind.Undo? ==> (log[k].id in u <==> log[k].id in v)
    ensures Sift(log, u) == Sift(log, v)
    decreases |log|
  {
    if log != [] {
      SiftDependsOnEntries(log[..|log| - 1], u, v);
    }
  }

  // ---- Appending ----

  /** Appending anything but an UNDO adds it at the end of the effective log, unless an UNDO already named it. */
  lemma AppendIsIncrementalIff(log: seq<Action>, a: Action)
    requires !a.kind.Undo?
    ensures Undone(log + [a]) == Undone(log)
    ensures EffectiveLog(log + [a]) == if a.id in Undone(log) then EffectiveLog(log) else EffectiveLog(log) + [a]
  {
    assert (log + [a])[..|log|] == log;
  }

  /** An UNDO that names nothing cancels nothing. */
  lemma EmptyUndoIsVoid(log: seq<Action>, undo: Action)
    requires undo.kind == Undo(NoId)
    ensures Undone(log + [undo]) == Undone(log) && EffectiveLog(log + [undo]) == EffectiveLog(log)
  {
    assert (log + [undo])[..|log|] == log;
  }

  lemma {:induction false} ScanIgnoresStrangers(log: seq<Action>, undone: set<Id>, id: Id)
    requires !Holds(log, id)
    ensures Scan(log, undone + {id}) == Scan(log, undone) + {id}
    decreases |log|
  {
    if log != [] {
      var n := |log| - 1;
      assert log[n].id != id;
      forall i | 0 <= i < |log[..n]|
        ensures log[..n][i].id != id
      {
      }
      ScanIgnoresStrangers(log[..n], undone, id);
      if log[n].id !in undone && Undoes(log[n]) {
        ScanIgnoresStrangers(log[..n], undone + {log[n].kind.refId}, id);
        assert undone + {id} + {log[n].kind.refId} == undone + {log[n].kind.refId} + {id};
      }
    }
  }

  /** Undoing an UNDO just appended, whatever it named, restores the effective log of before: redo is exact. */
  lemma UndoneUndoRestores(log: seq<Action>, undo: Action, redo: Action)
    requires undo.kind.Undo? && redo.kind == Undo(undo.id) && undo.id != NoId
    requires !Holds(log, undo.id) && redo.id != undo.id
    ensures EffectiveLog(log + [undo, redo]) == EffectiveLog(log)
  {
    var all := log + [undo, redo];
    assert all[..|log| + 1] == log + [undo] && (log + [undo])[..|log|] == log;
    assert Undone(all) == Scan(log + [undo], {} + {undo.id}) == Scan(log, {} + {undo.id});
    ScanIgnoresStrangers(log, {}, undo.id);
    SiftDependsOnEntries(log, Undone(all), Undone(log)) by {
      forall k | 0 <= k < |log|
        ensures log[k].id != undo.id
      {
      }
    }
    assert Sift(all, Undone(all)) == Sift(log + [undo], Undone(all)) == Sift(log, Undone(all));
  }

  // ---- Undo and redo as two stacks ----

  /** The last entry with this id, the one a lookup by id finds, is no UNDO. */
  ghost predicate IsPlay(log: seq<Action>, id: Id)
    decreases |log|
  {
    log != [] && if log[|log| - 1].id == id then !log[|log| - 1].kind.Undo? else IsPlay(log[..|log| - 1], id)
  }

  method GetUndoTargetId(log: seq<Action>) returns (target: Id)
    ensures target == Head(EffectiveLog(log))
  {
    var undone := EffectivelyUndone(log);
    var i := |log| - 1;
    assert log[..i + 1] == log;
    while i >= 0
      invariant -1 <= i < |log| && Sift(log[..i + 1], undone) == EffectiveLog(log)
    {
      assert log[..i + 1][..i] == log[..i];
      if !log[i].kind.Undo? && log[i].id !in undone {
        return log[i].id;
      }
      i := i - 1;
    }
    target := NoId;
  }

  /** The ids of the UNDOs since the last play that are live and name a play, oldest first; they can be redone. */
  ghost function Redoable(log: seq<Action>, undone: set<Id>, all: seq<Action>): seq<Id>
    decreases |log|
  {
    if log == [] || !log[|log| - 1].kind.Undo? then []
    else
      var n := |log| - 1;
      Redoable(log[..n], undone, all) +
      if log[n].id !in undone && IsPlay(all, log[n].kind.refId) then [log[n].id] else []
  }

  /** Below the UNDOs at the end comes a play that counts. */
  ghost predicate EndsLive(log: seq<Action>, undone: set<Id>)
    decreases |log|
  {
    log == []
    || if log[|log| - 1].kind.Undo? then EndsLive(log[..|log| - 1], undone) else log[|log| - 1].id !in undone
  }

  function Last(ids: seq<Id>): Id {
    if ids == [] then NoId else ids[|ids| - 1]
  }

  /** Walking back: the newest live UNDO of a play, unless a play that counts comes first. */
  ghost function RedoTarget(log: seq<Action>, undone: set<Id>, all: seq<Action>): Id
    decreases |log|
  {
    if log == [] then NoId
    else
      var a := log[|log| - 1];
      if !a.kind.Undo? && a.id !in undone then NoId
      else if a.kind.Undo? && a.id !in undone && IsPlay(all, a.kind.refId) then a.id
      else RedoTarget(log[..|log| - 1], undone, all)
  }

  lemma {:induction false} RedoTargetIsLast(log: seq<Action>, undone: set<Id>, all: seq<Action>)
    ensures Redoable(log, undone, all) != [] ==> RedoTarget(log, undone, all) == Last(Redoable(log, undone, all))
    ensures Redoable(log, undone, all) == [] && EndsLive(log, undone) ==> RedoTarget(log, undone, all) == NoId
    decreases |log|
  {
    if log != [] {
      RedoTargetIsLast(log[..|log| - 1], undone, all);
    }
  }

  method GetRedoTargetId(log: seq<Action>) returns (target: Id)
    ensures target == RedoTarget(log, Undone(log), log)
  {
    var undone := EffectivelyUndone(log);
    var actionMap: map<Id, Action> := map[];
    for k := 0 to |log|
      invariant forall id :: IsPlay(log[..k], id) <==> id in actionMap && !actionMap[id].kind.Undo?
    {
      assert log[..k + 1][..k] == log[..k];
      actionMap := actionMap[log[k].id := log[k]];
    }
    assert log[..|log|] == log;
    var i := |log| - 1;
    assert log[..i + 1] == log;
    while i >= 0
      invariant -1 <= i < |log| && RedoTarget(log[..i + 1], undone, log) == RedoTarget(log, undone, log)
    {
      assert log[..i + 1][..i] == log[..i];
      if !log[i].kind.Undo? && log[i].id !in undone {
        return NoId;
      }
      if log[i].kind.Undo? && log[i].id !in undone && log[i].kind.refId in actionMap && !actionMap[log[i].kind.refId].kind.Undo? {
        return log[i].id;
      }
      i := i - 1;
    }
    target := NoId;
  }
}
