/** Restarting from lagging files and replaying the log (backend/fsm.go, backend/raft.go).

    Raft replays the log onto whatever is on disk; every game's file is then the game as it was after some
    command of its own choosing. Only the per-game LastRaftIndex tells the replay what to skip. */
module Recovery {
  import opened Wrappers
  import opened Actions
  import opened GameStore
  import opened Fsm

  function Last(current: Loaded): nat {
    if current.Present? then current.game.lastRaftIndex else 0
  }

  /** Every entry comes after what the game has seen. */
  predicate Ahead(current: Loaded, entries: seq<Entry>) {
    forall k :: 0 <= k < |entries| ==> Last(current) < entries[k].index
  }

  function Owned(current: Loaded, ownerId: UserId): Loaded {
    if current.Present? then Present(current.game.(details := current.game.details.(ownerId := ownerId))) else current
  }

  /** Equal except, possibly, for the owner. */
  predicate Alike(a: Loaded, b: Loaded) {
    Owned(a, Anyone) == Owned(b, Anyone)
  }

  predicate HasDelete(id: Id, entries: seq<Entry>) {
    exists k :: 0 <= k < |entries| && entries[k].cmd.id == id && entries[k].cmd.DeleteGame?
  }

  predicate HasSave(id: Id, entries: seq<Entry>) {
    exists k :: 0 <= k < |entries| && IsSave(id, entries[k])
  }

  predicate IsSave(id: Id, e: Entry) {
    e.cmd.id == id && e.cmd.SaveGame? && e.cmd.data.Some?
  }

  lemma {:induction false} RunConcat(current: Loaded, id: Id, xs: seq<Entry>, ys: seq<Entry>)
    ensures Run(current, id, xs + ys) == Run(Run(current, id, xs), id, ys)
    decreases |xs|
  {
    hide StepIfMine;
    if xs == [] {
      assert xs + ys == ys;
    } else {
      assert (xs + ys)[1..] == xs[1..] + ys;
      RunConcat(StepIfMine(current, id, xs[0]), id, xs[1..], ys);
    }
  }

  lemma RunSnoc(current: Loaded, id: Id, entries: seq<Entry>, n: nat)
    requires n < |entries|
    ensures Run(current, id, entries[..n + 1]) == StepIfMine(Run(current, id, entries[..n]), id, entries[n])
  {
    hide StepIfMine;
    assert entries[..n + 1] == entries[..n] + [entries[n]];
    RunConcat(current, id, entries[..n], [entries[n]]);
    var before := Run(current, id, entries[..n]);
    assert Run(before, id, [entries[n]]) == Run(StepIfMine(before, id, entries[n]), id, []);
  }

  lemma {:induction false} ExtendAlike(g: Game, h: Game, actions: seq<Action>)
    requires Alike(Present(g), Present(h))
    ensures Alike(Present(Extend(g, actions)), Present(Extend(h, actions)))
    decreases |actions|
  {
    if actions != [] {
      AppliedAlike(g, h, actions[0]);
      ExtendAlike(Applied(g, actions[0]), Applied(h, actions[0]), actions[1..]);
    }
  }

  lemma AppliedAlike(g: Game, h: Game, a: Action)
    requires Alike(Present(g), Present(h))
    ensures Alike(Present(Applied(g, a)), Present(Applied(h, a)))
  {
    var g0, h0 := Owned(Present(g), Anyone).game, Owned(Present(h), Anyone).game;
    assert g0.log == g.log == h.log && g0.details.permissions == h.details.permissions;
  }

  /** No command looks at the owner. */
  lemma StepAlike(a: Loaded, b: Loaded, id: Id, e: Entry)
    requires Alike(a, b)
    ensures Alike(StepIfMine(a, id, e), StepIfMine(b, id, e))
    ensures Decide(a, e.cmd, e.index).1 == Decide(b, e.cmd, e.index).1
  {
    if a.Present? {
      var a0, b0 := Owned(a, Anyone).game, Owned(b, Anyone).game;
      assert a.game.log == a0.log == b.game.log && a.game.lastRaftIndex == a0.lastRaftIndex == b.game.lastRaftIndex;
      if e.cmd.ApplyActions? {
        ExtendAlike(a.game, b.game, DecodedPrefix(Raws(e.cmd)));
        var a1, b1 := Extend(a.game, DecodedPrefix(Raws(e.cmd))), Extend(b.game, DecodedPrefix(Raws(e.cmd)));
        assert Owned(Present(a1), Anyone).game.log == a1.log && Owned(Present(b1), Anyone).game.log == b1.log;
      }
    }
  }

  lemma {:induction false} RunAlike(a: Loaded, b: Loaded, id: Id, entries: seq<Entry>)
    requires Alike(a, b)
    ensures Alike(Run(a, id, entries), Run(b, id, entries))
    decreases |entries|
  {
    hide StepIfMine;
    if entries != [] {
      StepAlike(a, b, id, entries[0]);
      RunAlike(StepIfMine(a, id, entries[0]), StepIfMine(b, id, entries[0]), id, entries[1..]);
    }
  }

  /** A game already past every entry skips them all. */
  lemma {:induction false} SkipAll(current: Loaded, id: Id, entries: seq<Entry>)
    requires forall k :: 0 <= k < |entries| ==> 0 < entries[k].index <= Last(current)
    ensures Run(current, id, entries) == current
    decreases |entries|
  {
    if entries != [] {
      assert StepIfMine(current, id, entries[0]) == current;
      SkipAll(current, id, entries[1..]);
    }
  }

  /** A game stays, stays readable, and never gets ahead of the log. */
  lemma {:induction false} RunBounds(current: Loaded, id: Id, entries: seq<Entry>, bound: nat)
    requires forall k :: 0 <= k < |entries| ==> 0 < entries[k].index < bound
    requires Last(current) < bound
    ensures Last(Run(current, id, entries)) < bound
    ensures current.Present? ==> Run(current, id, entries).Present?
    ensures !current.Unreadable? ==> !Run(current, id, entries).Unreadable?
    decreases |entries|
  {
    if entries != [] {
      RunBounds(StepIfMine(current, id, entries[0]), id, entries[1..], bound);
    }
  }

  /** A forced save wins over whatever the entries before it made of the game. */
  lemma ForcedSaveWins(current: Loaded, id: Id, entries: seq<Entry>, e: Entry)
    requires IsSave(id, e) && e.cmd.force && Last(current) < e.index
    requires forall k :: 0 <= k < |entries| ==> 0 < entries[k].index < e.index
    ensures Shown(e.cmd.data.value, e.index, Run(current, id, entries + [e]))
  {
    hide Run;
    var all, before := entries + [e], Run(current, id, entries);
    assert all[..|entries|] == entries && all[..|entries| + 1] == all;
    RunBounds(current, id, entries, e.index);
    RunSnoc(current, id, all, |entries|);
    SaveReplacesIff(before, id, e.cmd.data.value, e.index, true);
  }

  /** A command does nothing, or stamps its index, or leaves a tombstone, which has none. */
  lemma StepCases(current: Loaded, id: Id, e: Entry)
    requires 0 < e.index
    ensures var next := StepIfMine(current, id, e);
            || next == current
            || Last(next) == e.index
            || (e.cmd.id == id && e.cmd.DeleteGame? && next.Present? && Last(next) == 0
                && forall other: Loaded | other.Present? && Last(other) < e.index ::
                     Alike(StepIfMine(other, id, e), next))
  {
  }

  /** Replaying a log onto its own result changes nothing but, after a delete, the tombstone's owner. */
  lemma {:induction false} ReplayIsIdempotent(start: Loaded, id: Id, entries: seq<Entry>, n: nat)
    requires Ordered(entries) && n <= |entries|
    ensures var end := Run(start, id, entries[..n]);
            && Alike(Run(end, id, entries[..n]), end)
            && (!HasDelete(id, entries) ==> Run(end, id, entries[..n]) == end)
    decreases n
  {
    hide StepIfMine;
    if n == 0 {
      return;
    }
    var m := n - 1;
    var before, end := Run(start, id, entries[..m]), Run(start, id, entries[..n]);
    RunSnoc(start, id, entries, m);
    RunSnoc(end, id, entries, m);
    StepCases(before, id, entries[m]);
    if end == before {
      ReplayIsIdempotent(start, id, entries, m);
      StepAlike(Run(before, id, entries[..m]), before, id, entries[m]);
    } else if Last(end) == entries[m].index {
      SkipAll(end, id, entries[..n]);
    } else {
      RunBounds(end, id, entries[..m], entries[m].index);
    }
  }

  /** Crash recovery. From a game's file as it was after any `lag` entries, replaying them all gives the game
      the crash-free run gives, up to the owner if the game was deleted on the way. */
  lemma ReplayRecovers(start: Loaded, id: Id, entries: seq<Entry>, lag: nat)
    requires Ordered(entries) && lag <= |entries|
    ensures var file := Run(start, id, entries[..lag]);
            && Alike(Run(file, id, entries), Run(start, id, entries))
            && (!HasDelete(id, entries) ==> Run(file, id, entries) == Run(start, id, entries))
  {
    hide StepIfMine;
    var prefix, rest := entries[..lag], entries[lag..];
    assert entries == prefix + rest;
    var file := Run(start, id, prefix);
    RunConcat(start, id, prefix, rest);
    RunConcat(file, id, prefix, rest);
    ReplayIsIdempotent(start, id, entries, lag);
    RunAlike(Run(file, id, prefix), file, id, rest);
  }

  // ---- The owner of a deleted game ----

  ghost predicate OwnedBy(current: Loaded, owner: UserId) {
    current.Present? ==> current.game.details.ownerId == owner
  }

  /** Every payload of the command that sets an owner names this one. */
  ghost predicate NamesOwner(cmd: Command, owner: UserId) {
    match cmd
    case SaveGame(_, data, _) => data.Some? ==> data.value.details.ownerId == owner
    case ApplyActions(_, _, _) => forall raw :: raw in Raws(cmd) ==> StartsFor(raw, owner)
    case DeleteGame(_) => true
  }

  predicate StartsFor(raw: Raw, owner: UserId) {
    raw.Decoded? && raw.action.kind.GameStart? && raw.action.kind.start.Some? ==>
      raw.action.kind.start.value.details.ownerId == owner
  }

  /** The first command of the game that is no delete. */
  function Opener(id: Id, entries: seq<Entry>): Option<Command>
    decreases |entries|
  {
    if entries == [] then None
    else if entries[0].cmd.id == id && !entries[0].cmd.DeleteGame? then Some(entries[0].cmd)
    else Opener(id, entries[1..])
  }

  /** A GAME_START with a payload, first in a batch that decodes, or a save that decodes. */
  predicate Begins(cmd: Command) {
    match cmd
    case SaveGame(_, data, _) => data.Some?
    case ApplyActions(_, _, _) =>
      var first := Raws(cmd)[0];
      Decodes(Raws(cmd)) && first.action.kind.GameStart? && first.action.kind.start.Some?
    case DeleteGame(_) => false
  }

  /** One owner throughout: the game has it, every payload names it, and a game that does not exist yet begins with
      it. */
  ghost predicate OneOwner(current: Loaded, id: Id, entries: seq<Entry>, owner: UserId) {
    && OwnedBy(current, owner)
    && (current.Absent? && owner != Anyone && Opener(id, entries).Some? ==> Begins(Opener(id, entries).value))
    && forall k :: 0 <= k < |entries| && entries[k].cmd.id == id ==>
            0 < entries[k].index && NamesOwner(entries[k].cmd, owner)
  }

  lemma {:induction false} ExtendKeepsOwner(g: Game, raws: seq<Raw>, owner: UserId)
    requires g.details.ownerId == owner && forall raw :: raw in raws ==> StartsFor(raw, owner)
    ensures Extend(g, DecodedPrefix(raws)).details.ownerId == owner
    decreases |raws|
  {
    if raws != [] && raws[0].Decoded? {
      assert raws[0] in raws;
      ExtendKeepsOwner(Applied(g, raws[0].action), raws[1..], owner);
    }
  }

  lemma StepKeepsOwner(current: Loaded, id: Id, entries: seq<Entry>, owner: UserId)
    requires entries != [] && OneOwner(current, id, entries, owner)
    ensures OneOwner(StepIfMine(current, id, entries[0]), id, entries[1..], owner)
  {
    var cmd, next := entries[0].cmd, StepIfMine(current, id, entries[0]);
    if cmd.id == id && cmd.ApplyActions? && !current.Unreadable? {
      var raws := Raws(cmd);
      assert raws[0] in raws;
      if current.Present? {
        ExtendKeepsOwner(current.game, raws, owner);
      } else if owner == Anyone {
        ExtendKeepsOwner(NewGame(id), raws, owner);
      } else {
        var g := Applied(NewGame(id), raws[0].action);
        ExtendKeepsOwner(g, raws[1..], owner);
        assert DecodedPrefix(raws)[1..] == DecodedPrefix(raws[1..]);
      }
    }
  }

  lemma {:induction false} RunKeepsOwner(current: Loaded, id: Id, entries: seq<Entry>, n: nat, owner: UserId)
    requires OneOwner(current, id, entries, owner) && n <= |entries|
    ensures OneOwner(Run(current, id, entries[..n]), id, entries[n..], owner)
    decreases |entries|
  {
    hide StepIfMine, OneOwner;
    if n > 0 {
      assert entries[..n][0] == entries[0] && entries[..n][1..] == entries[1..][..n - 1]
          && entries[1..][n - 1..] == entries[n..];
      StepKeepsOwner(current, id, entries, owner);
      RunKeepsOwner(StepIfMine(current, id, entries[0]), id, entries[1..], n - 1, owner);
    } else {
      assert entries[0..] == entries;
    }
  }

  lemma {:induction false} AbsentWasAbsent(current: Loaded, id: Id, entries: seq<Entry>)
    ensures Run(current, id, entries).Absent? ==> current.Absent?
    decreases |entries|
  {
    if entries != [] {
      AbsentWasAbsent(StepIfMine(current, id, entries[0]), id, entries[1..]);
    }
  }

  /** With one owner throughout the recovery is exact, deletes or not. */
  lemma ReplayRecoversExactly(start: Loaded, id: Id, entries: seq<Entry>, lag: nat, owner: UserId)
    requires Ordered(entries) && lag <= |entries| && OneOwner(start, id, entries, owner)
    ensures Run(Run(start, id, entries[..lag]), id, entries) == Run(start, id, entries)
    ensures OneOwner(Run(start, id, entries[..lag]), id, entries, owner)
  {
    hide StepIfMine, Run;
    var file := Run(start, id, entries[..lag]);
    assert entries[..|entries|] == entries;
    RunKeepsOwner(start, id, entries, lag, owner);
    AbsentWasAbsent(start, id, entries[..lag]);
    RunKeepsOwner(file, id, entries, |entries|, owner);
    RunKeepsOwner(start, id, entries, |entries|, owner);
    ReplayRecovers(start, id, entries, lag);
    SameOwnerIsSame(Run(file, id, entries), Run(start, id, entries), owner);
  }

  lemma SameOwnerIsSame(a: Loaded, b: Loaded, owner: UserId)
    requires Alike(a, b) && OwnedBy(a, owner) && OwnedBy(b, owner)
    ensures a == b
  {
    if a.Present? {
      assert Owned(Owned(a, Anyone), owner) == a && Owned(Owned(b, Anyone), owner) == b;
    }
  }

  lemma RunTwo(current: Loaded, id: Id, x: Entry, y: Entry)
    ensures Run(current, id, [x, y]) == StepIfMine(StepIfMine(current, id, x), id, y)
  {
    hide StepIfMine;
    RunSnoc(current, id, [x, y], 0);
    RunSnoc(current, id, [x, y], 1);
    assert [x, y][..0] == [] && [x, y][..2] == [x, y];
  }

  /** The other owner's game: its log is longer than the save's, and its last entry is the batch's action. */
  function Rival(id: Id, cmd: Command, owner: UserId): Game {
    var entry := Action(if cmd.ApplyActions? && cmd.action.Decoded? then cmd.action.action.id else NoId, GameFinalize);
    var log := if cmd.SaveGame? && cmd.data.Some? then cmd.data.value.log else [];
    Game(id, CURRENT_SCHEMA_VERSION, NoStatus, NO_DETAILS.(ownerId := owner), log + [entry], 0, entry.id)
  }

  /** A command that may lose against the stored game: an unforced save, or a single action. */
  predicate MayLose(cmd: Command) {
    (cmd.SaveGame? && !cmd.force) || (cmd.ApplyActions? && cmd.actions == [])
  }

  /** And exactly then: a command that may lose, followed by a delete, leaves every game of an owner as it was exactly
      if it names that owner. */
  lemma DeletedOwnerStaysIff(id: Id, cmd: Command, i: nat, j: nat, owner: UserId)
    requires cmd.id == id && MayLose(cmd) && 0 < i < j
    ensures var entries := [Entry(i, cmd), Entry(j, DeleteGame(id))];
      (forall start: Loaded | start.Present? && OwnedBy(start, owner) ::
         Run(Run(start, id, entries), id, entries) == Run(start, id, entries))
      <==> NamesOwner(cmd, owner)
  {
    var entries := [Entry(i, cmd), Entry(j, DeleteGame(id))];
    if NamesOwner(cmd, owner) {
      forall start: Loaded | start.Present? && OwnedBy(start, owner)
        ensures Run(Run(start, id, entries), id, entries) == Run(start, id, entries)
      {
        assert entries[..2] == entries;
        ReplayRecoversExactly(start, id, entries, 2, owner);
      }
    } else {
      RivalKeepsOwner(id, cmd, i, j, owner);
    }
  }

  lemma RivalKeepsOwner(id: Id, cmd: Command, i: nat, j: nat, owner: UserId)
    requires cmd.id == id && MayLose(cmd) && 0 < i < j && !NamesOwner(cmd, owner)
    ensures var start, entries := Present(Rival(id, cmd, owner)), [Entry(i, cmd), Entry(j, DeleteGame(id))];
      Run(Run(start, id, entries), id, entries) != Run(start, id, entries)
  {
    var rival, e, d := Rival(id, cmd, owner), Entry(i, cmd), Entry(j, DeleteGame(id));
    var start, end := Present(rival), Present(Tombstone(id, owner));
    RunTwo(start, id, e, d);
    RunTwo(end, id, e, d);
    if cmd.ApplyActions? {
      var a := cmd.action.action;
      SingleAction(rival, cmd.action);
      SingleAction(end.game, cmd.action);
      assert rival.log[|rival.log| - 1].id == a.id && Recent(rival.log, a.id);
    }
  }

  /** The owner can really change: the tombstone forgets LastRaftIndex, so a save that lost a conflict in the
      crash-free run wins when it is replayed over the tombstone, and the delete keeps the loser's owner. */
  lemma DeletedOwnerMayChange()
    ensures exists start: Loaded, id: Id, entries: seq<Entry> ::
              && Ordered(entries) && Ahead(start, entries)
              && Run(Run(start, id, entries), id, entries) != Run(start, id, entries)
  {
    var id := Uuid(0);
    var first, other := Action(Uuid(1), GameFinalize), Action(Uuid(2), GameFinalize);
    var ann, bob := User(1), User(2);
    var mine := Game(id, 3, NoStatus, NO_DETAILS.(ownerId := ann), [first], 1, Uuid(1));
    var theirs := Game(id, 3, NoStatus, NO_DETAILS.(ownerId := bob), [other], 0, Uuid(2));
    var save, delete := Entry(2, SaveGame(id, Some(theirs), false)), Entry(3, DeleteGame(id));
    var start, end := Present(mine), Present(Tombstone(id, ann));
    RunTwo(start, id, save, delete);
    RunTwo(end, id, save, delete);
    assert mine.log[0].id != theirs.log[0].id;
    assert StepIfMine(start, id, save) == start;
    assert Run(start, id, [save, delete]) == end;
    assert Run(end, id, [save, delete]) == Present(Tombstone(id, bob));
    assert Ordered([save, delete]) && Ahead(start, [save, delete]);
  }

  // ---- Old schema versions ----

  /** The copy the store goes by after the entries, given the one it went by before. */
  ghost function Wrote(before: Option<Game>, start: Loaded, id: Id, entries: seq<Entry>): Option<Game>
    decreases |entries|
  {
    if entries == [] then before
    else
      var n := |entries| - 1;
      var current := Run(start, id, entries[..n]);
      var stored := if entries[n].cmd.id == id then Decide(current, entries[n].cmd, entries[n].index).0 else None;
      if stored.Some? then stored else Wrote(before, start, id, entries[..n])
  }

  /** A copy that is not refused loads as the game the run has come to. */
  lemma {:induction false} WroteLoads(before: Option<Game>, start: Loaded, id: Id, entries: seq<Entry>)
    requires !OldSchema(before) ==> FromFile(before) == start
    requires !OldSchema(Wrote(before, start, id, entries))
    ensures FromFile(Wrote(before, start, id, entries)) == Run(start, id, entries)
    decreases |entries|
  {
    hide Decide;
    if entries != [] {
      var n := |entries| - 1;
      assert entries[..n + 1] == entries;
      RunSnoc(start, id, entries, n);
      if !(entries[n].cmd.id == id && Decide(Run(start, id, entries[..n]), entries[n].cmd, entries[n].index).0.Some?) {
        WroteLoads(before, start, id, entries[..n]);
      }
    }
  }

  /** The version a stretch of log leaves: that of its last GAME_START, where 0 means the current one. */
  function VersionAfter(version: int, log: seq<Action>): int
    decreases |log|
  {
    if log == [] then version
    else
      var last := log[|log| - 1].kind;
      if !last.GameStart? then VersionAfter(version, log[..|log| - 1])
      else if last.schemaVersion == 0 then CURRENT_SCHEMA_VERSION
      else last.schemaVersion
  }

  lemma {:induction false} VersionConcat(version: int, xs: seq<Action>, ys: seq<Action>)
    ensures VersionAfter(version, xs + ys) == VersionAfter(VersionAfter(version, xs), ys)
    decreases |ys|
  {
    if ys == [] {
      assert xs + ys == xs;
    } else {
      assert (xs + ys)[..|xs + ys| - 1] == xs + ys[..|ys| - 1];
      VersionConcat(version, xs, ys[..|ys| - 1]);
    }
  }

  lemma AppliedVersion(g: Game, a: Action)
    ensures var more := if Recent(g.log, a.id) then [] else [a];
      Applied(g, a).log == g.log + more && Applied(g, a).schemaVersion == VersionAfter(g.schemaVersion, more)
  {
    hide Recent;
    assert [a][..0] == [] && g.log + [] == g.log;
  }

  /** Actions leave the version of the last GAME_START they append. */
  lemma {:induction false} VersionIsTheLastStart(g: Game, actions: seq<Action>)
    ensures |g.log| <= |Extend(g, actions).log|
    ensures Extend(g, actions).schemaVersion == VersionAfter(g.schemaVersion, Extend(g, actions).log[|g.log|..])
    decreases |actions|
  {
    hide Recent, Applied, VersionAfter, ExtendLog;
    if actions == [] {
      assert g.log[|g.log|..] == [];
      NoVersion(g.schemaVersion);
    } else {
      var more, next := if Recent(g.log, actions[0].id) then [] else [actions[0]], Applied(g, actions[0]);
      AppliedVersion(g, actions[0]);
      VersionIsTheLastStart(next, actions[1..]);
      ExtendIsExtendLog(next, actions[1..]);
      ExtendLogGrows(next.log, actions[1..]);
      SplitSuffix(g.log, more, Extend(g, actions).log);
      VersionConcat(g.schemaVersion, more, Extend(g, actions).log[|next.log|..]);
    }
  }

  lemma NoVersion(version: int)
    ensures VersionAfter(version, []) == version
  {
  }

  lemma SplitSuffix(log: seq<Action>, more: seq<Action>, end: seq<Action>)
    requires log + more <= end
    ensures end[|log|..] == more + end[|log| + |more|..]
  {
  }

  /** What a command writes is refused from disk exactly if: it is a save of an old version, or actions after which the
      last GAME_START they append names an old version, or, with none, the game did, or was only just made. */
  lemma WritesOldSchemaIff(current: Loaded, cmd: Command, index: nat)
    requires Decide(current, cmd, index).0.Some?
    ensures OldSchema(Decide(current, cmd, index).0) <==>
      match cmd
      case SaveGame(_, data, _) => OldSchema(data)
      case ApplyActions(id, _, _) =>
        var g := if current.Present? then current.game else NewGame(id);
        var log := Extend(g, DecodedPrefix(Raws(cmd))).log;
        |g.log| <= |log| && VersionAfter(g.schemaVersion, log[|g.log|..]) < SCHEMA_VERSION_V3
      case DeleteGame(_) => false
  {
    if cmd.ApplyActions? {
      VersionIsTheLastStart(if current.Present? then current.game else NewGame(cmd.id), DecodedPrefix(Raws(cmd)));
    }
  }

  /** Saves are of the current version, and no GAME_START names an old one. */
  ghost predicate Modern(cmd: Command) {
    match cmd
    case SaveGame(_, data, _) => !OldSchema(data)
    case ApplyActions(_, _, _) => forall raw :: raw in Raws(cmd) ==> ModernStart(raw)
    case DeleteGame(_) => true
  }

  predicate ModernStart(raw: Raw) {
    raw.Decoded? && raw.action.kind.GameStart? ==>
      raw.action.kind.schemaVersion == 0 || raw.action.kind.schemaVersion >= SCHEMA_VERSION_V3
  }

  /** A new game begins with a GAME_START, in a batch that decodes, or with a save that decodes. */
  predicate BeginsModern(cmd: Command) {
    match cmd
    case SaveGame(_, data, _) => data.Some?
    case ApplyActions(_, _, _) => Decodes(Raws(cmd)) && Raws(cmd)[0].action.kind.GameStart?
    case DeleteGame(_) => false
  }

  /** Nothing here can write an old version. */
  ghost predicate AllModern(before: Option<Game>, start: Loaded, id: Id, entries: seq<Entry>) {
    && !OldSchema(before) && FromFile(before) == start
    && (start.Absent? && Opener(id, entries).Some? ==> BeginsModern(Opener(id, entries).value))
    && forall k :: 0 <= k < |entries| && entries[k].cmd.id == id ==> 0 < entries[k].index && Modern(entries[k].cmd)
  }

  lemma {:induction false} ExtendStaysModern(g: Game, raws: seq<Raw>)
    requires g.schemaVersion >= SCHEMA_VERSION_V3 && forall raw :: raw in raws ==> ModernStart(raw)
    ensures Extend(g, DecodedPrefix(raws)).schemaVersion >= SCHEMA_VERSION_V3
    decreases |raws|
  {
    if raws != [] && raws[0].Decoded? {
      assert raws[0] in raws;
      ExtendStaysModern(Applied(g, raws[0].action), raws[1..]);
    }
  }

  lemma StepStaysModern(before: Option<Game>, start: Loaded, id: Id, entries: seq<Entry>)
    requires entries != [] && AllModern(before, start, id, entries)
    ensures var stored := if entries[0].cmd.id == id then Decide(start, entries[0].cmd, entries[0].index).0 else None;
      AllModern(if stored.Some? then stored else before, StepIfMine(start, id, entries[0]), id, entries[1..])
  {
    var cmd := entries[0].cmd;
    if cmd.id == id && cmd.ApplyActions? {
      var raws := Raws(cmd);
      assert raws[0] in raws;
      if start.Present? {
        ExtendStaysModern(start.game, raws);
      } else {
        var g := Applied(NewGame(id), raws[0].action);
        ExtendStaysModern(g, raws[1..]);
        assert DecodedPrefix(raws)[1..] == DecodedPrefix(raws[1..]);
      }
    }
  }

  lemma {:induction false} WroteCons(before: Option<Game>, start: Loaded, id: Id, e: Entry, rest: seq<Entry>)
    ensures var stored := if e.cmd.id == id then Decide(start, e.cmd, e.index).0 else None;
      Wrote(before, start, id, [e] + rest)
        == Wrote(if stored.Some? then stored else before, StepIfMine(start, id, e), id, rest)
    decreases |rest|
  {
    hide Decide, StepIfMine;
    var all := [e] + rest;
    if rest == [] {
      assert all == [e] && all[..0] == [];
    } else {
      var n := |rest| - 1;
      assert all[..|all| - 1] == [e] + rest[..n] && all[|all| - 1] == rest[n];
      assert ([e] + rest[..n])[1..] == rest[..n];
      WroteCons(before, start, id, e, rest[..n]);
    }
  }

  /** Over a run of such entries every copy is of the current version. */
  lemma {:induction false} StaysModern(before: Option<Game>, start: Loaded, id: Id, entries: seq<Entry>, n: nat)
    requires AllModern(before, start, id, entries) && n <= |entries|
    ensures !OldSchema(Wrote(before, start, id, entries[..n]))
    decreases n
  {
    hide Decide, StepIfMine, AllModern;
    if n == 0 {
      ModernBefore(before, start, id, entries);
    } else {
      var e := entries[0];
      var stored := if e.cmd.id == id then Decide(start, e.cmd, e.index).0 else None;
      StepStaysModern(before, start, id, entries);
      StaysModern(if stored.Some? then stored else before, StepIfMine(start, id, e), id, entries[1..], n - 1);
      assert entries[..n] == [e] + entries[1..][..n - 1];
      WroteCons(before, start, id, e, entries[1..][..n - 1]);
    }
  }

  lemma ModernBefore(before: Option<Game>, start: Loaded, id: Id, entries: seq<Entry>)
    requires AllModern(before, start, id, entries)
    ensures !OldSchema(before) && FromFile(before) == start
  {
  }

  /** From any of these copies the same entries can be replayed. */
  lemma ModernAgain(before: Option<Game>, start: Loaded, id: Id, entries: seq<Entry>, lag: nat)
    requires AllModern(before, start, id, entries) && lag <= |entries|
    ensures var copy := Wrote(before, start, id, entries[..lag]);
      AllModern(copy, FromFile(copy), id, entries) && FromFile(copy) == Run(start, id, entries[..lag])
  {
    hide Run, Wrote;
    StaysModern(before, start, id, entries, lag);
    WroteLoads(before, start, id, entries[..lag]);
    AbsentWasAbsent(start, id, entries[..lag]);
  }

  /** A GAME_START that names version 1 makes a game that loads until the next restart and never again. */
  lemma OldStartIsRefused(id: Id, a: Id, index: nat)
    requires 0 < index
    ensures RefusedAfterRestart(id, Entry(index, ApplyActions(id, Decoded(Action(a, GameStart(1, None))), [])))
  {
    SingleAction(NewGame(id), Decoded(Action(a, GameStart(1, None))));
  }

  /** So does any first action that is no GAME_START: the game is stored as version 0, which memory takes for the
      current one and the file does not. */
  lemma MissingStartIsRefused(id: Id, a: Action, index: nat)
    requires 0 < index && !a.kind.GameStart?
    ensures RefusedAfterRestart(id, Entry(index, ApplyActions(id, Decoded(a), [])))
  {
    SingleAction(NewGame(id), Decoded(a));
  }

  /** The entry makes the game; memory loads it, its file is refused, and replaying the entry does not help. */
  ghost predicate RefusedAfterRestart(id: Id, e: Entry) {
    var stored := Decide(Absent, e.cmd, e.index).0;
    && stored.Some? && StepIfMine(Absent, id, e).Present?
    && FromFile(stored) == Unreadable
    && StepIfMine(Unreadable, id, e) == Unreadable
  }

  lemma {:induction false} UnreadableStaysUnreadable(id: Id, entries: seq<Entry>)
    requires !HasSave(id, entries)
    ensures Run(Unreadable, id, entries) == Unreadable
    decreases |entries|
  {
    if entries != [] {
      assert !IsSave(id, entries[0]);
      forall k | 0 <= k < |entries[1..]|
        ensures !IsSave(id, entries[1..][k])
      {
        assert entries[1..][k] == entries[k + 1];
      }
      UnreadableStaysUnreadable(id, entries[1..]);
    }
  }

  /** The first save that is replayed repairs an unreadable file; if it went through in the crash-free run too, the
      recovery is exact from there on. */
  lemma SaveRepairs(start: Loaded, id: Id, entries: seq<Entry>, k: nat)
    requires k < |entries| && IsSave(id, entries[k]) && !HasSave(id, entries[..k])
    ensures var e := entries[k];
      Run(Unreadable, id, entries)
      == Run(Present(Normalized(Repaired(Stamped(e.cmd.data.value, e.index)))), id, entries[k + 1..])
    ensures Decide(Run(start, id, entries[..k]), entries[k].cmd, entries[k].index).0.Some?
        ==> Run(Unreadable, id, entries) == Run(start, id, entries)
  {
    hide Run;
    var prefix, rest := entries[..k + 1], entries[k + 1..];
    assert entries == prefix + rest;
    UnreadableStaysUnreadable(id, entries[..k]);
    RunSnoc(Unreadable, id, entries, k);
    RunSnoc(start, id, entries, k);
    RunConcat(Unreadable, id, prefix, rest);
    RunConcat(start, id, prefix, rest);
  }

  /** What a lagging file recovers to, whatever it is. If its version is not old, the crash-free game. If it is old, the
      game stays refused for good unless a save is replayed. */
  lemma RecoversIffNotOld(before: Option<Game>, start: Loaded, id: Id, entries: seq<Entry>, lag: nat)
    requires Ordered(entries) && lag <= |entries| && !start.Unreadable?
    requires !OldSchema(before) ==> FromFile(before) == start
    ensures var copy := Wrote(before, start, id, entries[..lag]);
      && (!OldSchema(copy) ==> Alike(Run(FromFile(copy), id, entries), Run(start, id, entries)))
      && (!HasSave(id, entries) ==>
            (Alike(Run(FromFile(copy), id, entries), Run(start, id, entries)) <==> !OldSchema(copy)))
  {
    hide Run, Wrote;
    var copy := Wrote(before, start, id, entries[..lag]);
    if !OldSchema(copy) {
      WroteLoads(before, start, id, entries[..lag]);
      ReplayRecovers(start, id, entries, lag);
    } else if !HasSave(id, entries) {
      UnreadableStaysUnreadable(id, entries);
      ReadableStaysReadable(start, id, entries);
    }
  }

  lemma {:induction false} ReadableStaysReadable(start: Loaded, id: Id, entries: seq<Entry>)
    requires !start.Unreadable?
    ensures !Run(start, id, entries).Unreadable?
    decreases |entries|
  {
    if entries != [] {
      ReadableStaysReadable(StepIfMine(start, id, entries[0]), id, entries[1..]);
    }
  }

  // ---- The whole life of a node ----

  /** The file is the copy the store went by after one of the first `n` entries. */
  ghost predicate Reached(file: Option<Game>, before: Option<Game>, start: Loaded, id: Id, entries: seq<Entry>, n: nat)
    requires n <= |entries|
  {
    exists lag :: 0 <= lag <= n && file == Wrote(before, start, id, entries[..lag])
  }

  /** Every game follows its own run from what the store first held, and every file is the copy of one of the first `n`
      entries. */
  ghost predicate OnTrack(gs: GameStore, cache: map<Id, Game>, disk: map<Id, Game>, entries: seq<Entry>, n: nat)
    requires n <= |entries|
    reads gs
  {
    forall id ::
      && gs.At(id) == Run(LookUp(cache, disk, id), id, entries[..n])
      && gs.Held(id) == Wrote(Newest(cache, disk, id), LookUp(cache, disk, id), id, entries[..n])
      && Reached(gs.File(id), Newest(cache, disk, id), LookUp(cache, disk, id), id, entries, n)
  }

  ghost function StoredBy(start: Loaded, id: Id, e: Entry): Option<Game> {
    if e.cmd.id == id then Decide(start, e.cmd, e.index).0 else None
  }

  method ApplyThenFlush(fsm: FSM, e: Entry, ids: seq<Id>)
    requires fsm.gs.Valid() && WellKeyed(e.cmd)
    modifies fsm.gs
    ensures fsm.gs.Valid()
    ensures forall id :: fsm.gs.At(id) == StepIfMine(old(fsm.gs.At(id)), id, e)
    ensures forall id :: var stored := StoredBy(old(fsm.gs.At(id)), id, e);
              fsm.gs.Held(id) == if stored.Some? then stored else old(fsm.gs.Held(id))
    ensures forall id :: MayLag(old(fsm.gs.File(id)), fsm.gs.File(id), fsm.gs.Held(id))
    ensures forall id :: id in ids ==> fsm.gs.File(id) == fsm.gs.Held(id)
  {
    var gs := fsm.gs;
    StoresUnderItsKey(gs.At(e.cmd.id), e.cmd, e.index);
    hide LookUp, Newest, Copy, Normalized, Decide;
    var _ := fsm.ApplyCommand(e.cmd, e.index);
    for j := 0 to |ids|
      invariant gs.Valid()
      invariant forall id :: gs.At(id) == StepIfMine(old(fsm.gs.At(id)), id, e)
      invariant forall id :: var stored := StoredBy(old(fsm.gs.At(id)), id, e);
                  gs.Held(id) == if stored.Some? then stored else old(fsm.gs.Held(id))
      invariant forall id :: MayLag(old(fsm.gs.File(id)), gs.File(id), gs.Held(id))
      invariant forall k :: 0 <= k < j ==> gs.File(ids[k]) == gs.Held(ids[k])
    {
      gs.Flush(ids[j]);
    }
  }

  lemma WroteSnoc(before: Option<Game>, start: Loaded, id: Id, entries: seq<Entry>, n: nat)
    requires n < |entries|
    ensures var stored := StoredBy(Run(start, id, entries[..n]), id, entries[n]);
      Wrote(before, start, id, entries[..n + 1])
      == if stored.Some? then stored else Wrote(before, start, id, entries[..n])
  {
    hide Decide;
    assert entries[..n + 1][..n] == entries[..n];
  }

  lemma StillReached(file: Option<Game>, before: Option<Game>, start: Loaded, id: Id, entries: seq<Entry>, n: nat,
                     next: Option<Game>)
    requires n < |entries| && Reached(file, before, start, id, entries, n)
    requires next == file || next == Wrote(before, start, id, entries[..n + 1])
    ensures Reached(next, before, start, id, entries, n + 1)
  {
    hide Wrote;
    var lag :| 0 <= lag <= n && file == Wrote(before, start, id, entries[..lag]);
  }

  method StepOnTrack(fsm: FSM, ghost cache: map<Id, Game>, ghost disk: map<Id, Game>, entries: seq<Entry>, n: nat,
                     ids: seq<Id>)
    requires n < |entries| && WellKeyed(entries[n].cmd)
    requires fsm.gs.Valid() && OnTrack(fsm.gs, cache, disk, entries, n)
    modifies fsm.gs
    ensures fsm.gs.Valid() && OnTrack(fsm.gs, cache, disk, entries, n + 1)
  {
    hide StepIfMine, StoredBy, Wrote, Reached, Newest, LookUp, Copy;
    ApplyThenFlush(fsm, entries[n], ids);
    forall id
      ensures fsm.gs.At(id) == Run(LookUp(cache, disk, id), id, entries[..n + 1])
      ensures fsm.gs.Held(id) == Wrote(Newest(cache, disk, id), LookUp(cache, disk, id), id, entries[..n + 1])
      ensures Reached(fsm.gs.File(id), Newest(cache, disk, id), LookUp(cache, disk, id), id, entries, n + 1)
    {
      var start, before := LookUp(cache, disk, id), Newest(cache, disk, id);
      assert old(fsm.gs.At(id)) == Run(start, id, entries[..n]);
      assert Reached(old(fsm.gs.File(id)), before, start, id, entries, n);
      RunSnoc(start, id, entries, n);
      WroteSnoc(before, start, id, entries, n);
      StillReached(old(fsm.gs.File(id)), before, start, id, entries, n, fsm.gs.File(id));
    }
  }

  /** Snapshot (which flushes), then apply the entries with any flushes in between. */
  method ApplyWithFlushes(fsm: FSM, entries: seq<Entry>, flushes: seq<seq<Id>>)
    requires fsm.gs.Valid() && |flushes| == |entries|
    requires forall e :: e in entries ==> WellKeyed(e.cmd)
    modifies fsm.gs
    ensures fsm.gs.Valid()
    ensures OnTrack(fsm.gs, old(fsm.gs.cache), old(fsm.gs.disk), entries, |entries|)
  {
    ghost var cache, disk := fsm.gs.cache, fsm.gs.disk;
    fsm.gs.FlushAll();
    forall id
      ensures fsm.gs.At(id) == Run(LookUp(cache, disk, id), id, entries[..0])
      ensures fsm.gs.Held(id) == Wrote(Newest(cache, disk, id), LookUp(cache, disk, id), id, entries[..0])
      ensures Reached(fsm.gs.File(id), Newest(cache, disk, id), LookUp(cache, disk, id), id, entries, 0)
    {
      assert fsm.gs.At(id) == old(fsm.gs.At(id)) && fsm.gs.Held(id) == old(fsm.gs.Held(id));
      assert fsm.gs.File(id) == Wrote(Newest(cache, disk, id), LookUp(cache, disk, id), id, entries[..0]);
    }
    for k := 0 to |entries|
      invariant fsm.gs.Valid() && OnTrack(fsm.gs, cache, disk, entries, k)
    {
      StepOnTrack(fsm, cache, disk, entries, k, flushes[k]);
    }
  }

  /** From here the entries lead where they led from the start, in the ways proved above. */
  ghost predicate LeadsTo(now: Loaded, start: Loaded, id: Id, entries: seq<Entry>) {
    && Alike(Run(now, id, entries), Run(start, id, entries))
    && (!HasDelete(id, entries) ==> Run(now, id, entries) == Run(start, id, entries))
    && (forall owner :: OneOwner(start, id, entries, owner) ==>
          OneOwner(now, id, entries, owner) && Run(now, id, entries) == Run(start, id, entries))
  }

  lemma LeadsToItself(start: Loaded, id: Id, entries: seq<Entry>)
    ensures LeadsTo(start, start, id, entries)
  {
  }

  lemma StillLeadsTo(now: Loaded, start: Loaded, id: Id, entries: seq<Entry>, lag: nat)
    requires Ordered(entries) && lag <= |entries| && LeadsTo(now, start, id, entries)
    ensures LeadsTo(Run(now, id, entries[..lag]), start, id, entries)
  {
    hide Run, OneOwner, HasDelete;
    ReplayRecovers(now, id, entries, lag);
    forall owner | OneOwner(start, id, entries, owner)
      ensures OneOwner(Run(now, id, entries[..lag]), id, entries, owner)
      ensures Run(Run(now, id, entries[..lag]), id, entries) == Run(start, id, entries)
    {
      ReplayRecoversExactly(now, id, entries, lag, owner);
    }
  }

  /** ... then crash, restart on the files, and replay the entries: every game ends as if there had been no crash,
      unless the version last written to its file is old; then it is lost, unless a save is replayed. */
  method CrashAndReplay(fsm: FSM, entries: seq<Entry>, flushes: seq<seq<Id>>) returns (files: map<Id, Game>)
    requires fsm.gs.Valid() && |flushes| == |entries|
    requires Ordered(entries) && forall e :: e in entries ==> WellKeyed(e.cmd)
    modifies fsm.gs
    ensures fsm.gs.Valid()
    ensures forall id :: Reached(Copy(files, id), old(fsm.gs.Held(id)), old(fsm.gs.At(id)), id, entries, |entries|)
    ensures forall id :: fsm.gs.At(id) == Run(ReadFile(files, id), id, entries)
    ensures forall id :: !OldSchema(Copy(files, id)) ==> LeadsTo(ReadFile(files, id), old(fsm.gs.At(id)), id, entries)
    ensures forall id :: OldSchema(Copy(files, id)) && !HasSave(id, entries) ==> fsm.gs.At(id) == Unreadable
  {
    hide StepIfMine, Run, Wrote, LeadsTo;
    ApplyWithFlushes(fsm, entries, flushes);
    files := fsm.gs.disk;
    fsm.gs.Restart();
    ApplyWithFlushes(fsm, entries, seq(|entries|, _ => []));
    assert entries[..|entries|] == entries;
    forall id
      ensures !OldSchema(Copy(files, id)) ==> LeadsTo(ReadFile(files, id), old(fsm.gs.At(id)), id, entries)
      ensures OldSchema(Copy(files, id)) && !HasSave(id, entries) ==>
                Run(ReadFile(files, id), id, entries) == Unreadable
    {
      FileLeadsTo(Copy(files, id), old(fsm.gs.Held(id)), old(fsm.gs.At(id)), id, entries);
    }
  }

  lemma FileLeadsTo(file: Option<Game>, before: Option<Game>, start: Loaded, id: Id, entries: seq<Entry>)
    requires Ordered(entries) && Reached(file, before, start, id, entries, |entries|)
    requires !OldSchema(before) ==> FromFile(before) == start
    ensures !OldSchema(file) ==> LeadsTo(FromFile(file), start, id, entries)
    ensures OldSchema(file) && !HasSave(id, entries) ==> Run(FromFile(file), id, entries) == Unreadable
  {
    hide Run, Wrote, LeadsTo;
    var lag :| 0 <= lag <= |entries| && file == Wrote(before, start, id, entries[..lag]);
    if !OldSchema(file) {
      WroteLoads(before, start, id, entries[..lag]);
      LeadsToItself(start, id, entries);
      StillLeadsTo(start, start, id, entries, lag);
    } else if !HasSave(id, entries) {
      UnreadableStaysUnreadable(id, entries);
    }
  }

  /** How far the replay came before the next crash, and what was flushed after each entry. */
  datatype Round = Round(applied: nat, flushes: seq<seq<Id>>)

  lemma ModernFile(file: Option<Game>, before: Option<Game>, now: Loaded, start: Loaded, id: Id, entries: seq<Entry>,
                   n: nat)
    requires Ordered(entries) && n <= |entries| && AllModern(before, now, id, entries)
    requires LeadsTo(now, start, id, entries)
    requires Reached(file, before, now, id, entries[..n], n)
    ensures AllModern(file, FromFile(file), id, entries) && LeadsTo(FromFile(file), start, id, entries)
  {
    hide Run, Wrote, LeadsTo, AllModern;
    var lag :| 0 <= lag <= n && file == Wrote(before, now, id, entries[..n][..lag]);
    assert entries[..n][..lag] == entries[..lag];
    ModernAgain(before, now, id, entries, lag);
    StillLeadsTo(now, start, id, entries, lag);
  }

  /** One round and the crash that ends it. */
  method CrashOnce(fsm: FSM, entries: seq<Entry>, round: Round, ghost starts: map<Id, Game>, ghost files: map<Id, Game>)
    requires fsm.gs.Valid() && Ordered(entries) && forall e :: e in entries ==> WellKeyed(e.cmd)
    requires round.applied <= |entries| && |round.flushes| == round.applied
    requires forall id :: AllModern(fsm.gs.Held(id), fsm.gs.At(id), id, entries)
    requires forall id :: LeadsTo(fsm.gs.At(id), LookUp(starts, files, id), id, entries)
    modifies fsm.gs
    ensures fsm.gs.Valid()
    ensures forall id :: AllModern(fsm.gs.Held(id), fsm.gs.At(id), id, entries)
    ensures forall id :: LeadsTo(fsm.gs.At(id), LookUp(starts, files, id), id, entries)
  {
    hide Run, Wrote, LeadsTo, AllModern, Reached;
    ghost var cache, disk := fsm.gs.cache, fsm.gs.disk;
    ApplyWithFlushes(fsm, entries[..round.applied], round.flushes);
    ghost var left := fsm.gs.disk;
    forall id
      ensures AllModern(Copy(left, id), FromFile(Copy(left, id)), id, entries)
      ensures LeadsTo(FromFile(Copy(left, id)), LookUp(starts, files, id), id, entries)
    {
      assert Copy(left, id) == fsm.gs.File(id);
      assert AllModern(old(fsm.gs.Held(id)), old(fsm.gs.At(id)), id, entries);
      ModernFile(Copy(left, id), Newest(cache, disk, id), LookUp(cache, disk, id), LookUp(starts, files, id), id,
                 entries, round.applied);
    }
    fsm.gs.Restart();
    forall id
      ensures fsm.gs.Held(id) == Copy(left, id) && fsm.gs.At(id) == FromFile(Copy(left, id))
    {
    }
  }

  /** However often the node crashes, wherever in the log, and whatever was flushed: once the log is replayed to its
      end, every game is there and as if there had been no crash, as long as nothing writes an old version. */
  method SurviveCrashes(fsm: FSM, entries: seq<Entry>, rounds: seq<Round>)
    requires fsm.gs.Valid() && Ordered(entries) && forall e :: e in entries ==> WellKeyed(e.cmd)
    requires forall k :: 0 <= k < |rounds| ==>
              rounds[k].applied <= |entries| && |rounds[k].flushes| == rounds[k].applied
    requires forall id :: AllModern(fsm.gs.Held(id), fsm.gs.At(id), id, entries)
    modifies fsm.gs
    ensures fsm.gs.Valid()
    ensures forall id :: Alike(fsm.gs.At(id), Run(old(fsm.gs.At(id)), id, entries))
    ensures forall id :: !HasDelete(id, entries) ==> fsm.gs.At(id) == Run(old(fsm.gs.At(id)), id, entries)
    ensures forall id, owner :: OneOwner(old(fsm.gs.At(id)), id, entries, owner) ==>
              fsm.gs.At(id) == Run(old(fsm.gs.At(id)), id, entries)
  {
    hide Run, AllModern, Reached, OneOwner, HasDelete;
    ghost var cache, disk := fsm.gs.cache, fsm.gs.disk;
    forall id
      ensures LeadsTo(fsm.gs.At(id), LookUp(cache, disk, id), id, entries)
    {
      LeadsToItself(fsm.gs.At(id), id, entries);
    }
    for k := 0 to |rounds|
      invariant fsm.gs.Valid()
      invariant forall id :: AllModern(fsm.gs.Held(id), fsm.gs.At(id), id, entries)
      invariant forall id :: LeadsTo(fsm.gs.At(id), LookUp(cache, disk, id), id, entries)
    {
      hide LeadsTo;
      CrashOnce(fsm, entries, rounds[k], cache, disk);
    }
    label crashed:
    ApplyWithFlushes(fsm, entries, seq(|entries|, _ => []));
    assert entries[..|entries|] == entries;
    forall id
      ensures LeadsTo(old@crashed(fsm.gs.At(id)), old(fsm.gs.At(id)), id, entries)
      ensures fsm.gs.At(id) == Run(old@crashed(fsm.gs.At(id)), id, entries)
    {
    }
  }
}
