/** Applying committed commands to games one at a time (backend/fsm.go). */
module Fsm {
  import opened Wrappers
  import opened Actions
  import opened GameStore

  /** `data` is None when the saved game does not decode. A batch of actions takes the place of the single one. */
  datatype Command =
    | SaveGame(id: Id, data: Option<Game>, force: bool)
    | ApplyActions(id: Id, action: Raw, actions: seq<Raw>)
    | DeleteGame(id: Id)

  /** A committed command at its place in the Raft log. */
  datatype Entry = Entry(index: nat, cmd: Command)

  predicate Ordered(entries: seq<Entry>) {
    && (forall i :: 0 <= i < |entries| ==> 0 < entries[i].index)
    && (forall i, j :: 0 <= i < j < |entries| ==> entries[i].index < entries[j].index)
  }

  datatype Failure = BadGameData | Conflict | BadAction | UnreadableGame | DeletedGame

  datatype Outcome = Done | Failed(failure: Failure)

  function Raws(cmd: Command): seq<Raw>
    requires cmd.ApplyActions?
  {
    if |cmd.actions| > 0 then cmd.actions else [cmd.action]
  }

  /** `longer` repeats every id of `shorter`, in order, and may go on. */
  ghost predicate ExtendsHistory(shorter: seq<Action>, longer: seq<Action>) {
    |shorter| <= |longer| && forall i :: 0 <= i < |shorter| ==> shorter[i].id == longer[i].id
  }

  function Repaired(g: Game): Game {
    if g.lastActionId == NoId && |g.log| > 0 then g.(lastActionId := g.log[|g.log| - 1].id) else g
  }

  function Stamped(g: Game, index: nat): Game {
    if index > 0 then g.(lastRaftIndex := index) else g
  }

  predicate Stale(current: Loaded, index: nat) {
    current.Present? && 0 < index <= current.game.lastRaftIndex
  }

  /** The game a command stores, if any, and its outcome, given what LoadGame answers for its target. */
  ghost function Decide(current: Loaded, cmd: Command, index: nat): (Option<Game>, Outcome) {
    match cmd
    case SaveGame(id, data, force) =>
      if data.None? then (None, Failed(BadGameData))
      else if Stale(current, index) then (None, Done)
      else if current.Present? && !force && !ExtendsHistory(current.game.log, data.value.log) then (None, Failed(Conflict))
      else (Some(Repaired(Stamped(data.value, index))), Done)
    case ApplyActions(id, _, _) =>
      if current.Unreadable? then (None, Failed(UnreadableGame))
      else if Stale(current, index) then (None, Done)
      else
        var g := if current.Present? then current.game else NewGame(id);
        var next := Extend(g, DecodedPrefix(Raws(cmd)));
        if !Decodes(Raws(cmd)) then (None, Failed(BadAction))
        else if index == 0 && next.log == g.log then (None, Done)
        else (Some(Stamped(next, index)), Done)
    case DeleteGame(id) =>
      if current.Unreadable? then (None, Failed(UnreadableGame))
      else if current.Absent? || Stale(current, index) then (None, Done)
      else (Some(Tombstone(id, current.game.details.ownerId)), Done)
  }

  // ---- What a command does, said without the decision ----

  /** A save that decodes goes through when it is forced, or there is nothing to conflict with, or it only adds. */
  ghost predicate GoesThrough(current: Loaded, data: Game, index: nat, force: bool) {
    !Stale(current, index) && (force || !current.Present? || ExtendsHistory(current.game.log, data.log))
  }

  /** The saved game as it came, with the index of the entry and, if it lacked one, its last action id. */
  predicate SavedAs(data: Game, index: nat, stored: Game) {
    && stored.id == data.id && stored.log == data.log && stored.details == data.details
    && stored.status == data.status && stored.schemaVersion == data.schemaVersion
    && stored.lastRaftIndex == (if index > 0 then index else data.lastRaftIndex)
    && stored.lastActionId
    == if data.lastActionId == NoId && data.log != [] then data.log[|data.log| - 1].id else data.lastActionId
  }

  /** The outcome of a save, in every case. */
  ghost predicate SaveAnswers(current: Loaded, data: Option<Game>, index: nat, force: bool, outcome: Outcome) {
    && (outcome == Failed(BadGameData) <==> data.None?)
    && (outcome == Failed(Conflict)
        <==> data.Some? && !Stale(current, index) && !GoesThrough(current, data.value, index, force))
    && (outcome == Done <==> data.Some? && (Stale(current, index) || GoesThrough(current, data.value, index, force)))
  }

  function LogOf(current: Loaded): seq<Action> {
    if current.Present? then current.game.log else []
  }

  /** The outcome of a batch of actions, in every case. */
  ghost predicate ActionsAnswer(current: Loaded, raws: seq<Raw>, index: nat, outcome: Outcome) {
    && (outcome == Failed(UnreadableGame) <==> current.Unreadable?)
    && (outcome == Failed(BadAction) <==> !current.Unreadable? && !Stale(current, index) && !Decodes(raws))
    && (outcome == Done <==> !current.Unreadable? && (Stale(current, index) || Decodes(raws)))
  }

  /** A batch of actions is stored when it decodes, is not applied yet, and has an index or adds something. */
  ghost predicate Lands(current: Loaded, raws: seq<Raw>, index: nat) {
    && !current.Unreadable? && !Stale(current, index) && Decodes(raws)
    && (index > 0 || ExtendLog(LogOf(current), DecodedPrefix(raws)) != LogOf(current))
  }

  /** The game the actions leave: the log they extend, the last word of the added part on each field, and the index. */
  ghost predicate ExtendedAs(g: Game, raws: seq<Raw>, index: nat, stored: Game) {
    && g.log <= stored.log == ExtendLog(g.log, DecodedPrefix(raws))
    && (forall f :: FieldOf(stored, f) == LastWord(FieldOf(g, f), stored.log[|g.log|..], f))
    && stored.lastRaftIndex == (if index > 0 then index else g.lastRaftIndex)
  }

  lemma ExtendIsExtended(g: Game, raws: seq<Raw>, index: nat, stored: Game)
    requires stored == Stamped(Extend(g, DecodedPrefix(raws)), index)
    ensures ExtendedAs(g, raws, index, stored)
  {
    hide Extend, ExtendLog, DecodedPrefix, LastWord;
    var actions := DecodedPrefix(raws);
    ExtendIsExtendLog(g, actions);
    ExtendLogGrows(g.log, actions);
    ExtendKeepsIndex(g, actions);
    forall f
      ensures FieldOf(stored, f) == LastWord(FieldOf(g, f), stored.log[|g.log|..], f)
    {
      LastWordWins(g, actions, f);
    }
  }

  lemma {:induction false} ExtendKeepsIndex(g: Game, actions: seq<Action>)
    ensures Extend(g, actions).lastRaftIndex == g.lastRaftIndex
    decreases |actions|
  {
    if actions != [] {
      ExtendKeepsIndex(Applied(g, actions[0]), actions[1..]);
    }
  }

  /** Command and payload agree on the game: saves are routed by the id of the saved game, and a GAME_START
      names the game it starts. */
  ghost predicate WellKeyed(cmd: Command) {
    match cmd
    case SaveGame(id, data, _) => data.Some? ==> data.value.id == id
    case ApplyActions(id, _, _) =>
      forall raw :: raw in Raws(cmd) && raw.Decoded? && raw.action.kind.GameStart? && raw.action.kind.start.Some?
        ==> raw.action.kind.start.value.id == id
    case DeleteGame(_) => true
  }

  /** Payloads were checked before they were proposed, as ApplyAction asks of its callers. */
  ghost predicate Validated(cmd: Command) {
    && WellKeyed(cmd)
    && (cmd.SaveGame? ==> cmd.data.Some?)
    && (cmd.ApplyActions? ==> Decodes(Raws(cmd)))
  }

  ghost predicate Keyed(current: Loaded, id: Id) {
    current.Present? ==> current.game.id == id
  }

  /** The answer of LoadGame for the command's own game afterwards. */
  ghost function Step(current: Loaded, cmd: Command, index: nat): Loaded {
    var stored := Decide(current, cmd, index).0;
    if stored.Some? then Present(Normalized(stored.value)) else current
  }

  /** A save puts its own game in the place of whatever was there exactly if it goes through, and changes nothing
      otherwise. */
  lemma SaveReplacesIff(current: Loaded, id: Id, data: Game, index: nat, force: bool)
    ensures var next := Step(current, SaveGame(id, Some(data), force), index);
      if GoesThrough(current, data, index, force) then Shown(data, index, next) else next == current
  {
  }

  /** The answer of a load that shows the saved game; version 0 reads as the current one. */
  predicate Shown(data: Game, index: nat, now: Loaded) {
    && now.Present? && now.game.id == data.id && now.game.log == data.log && now.game.details == data.details
    && now.game.status == data.status
    && now.game.schemaVersion == (if data.schemaVersion == 0 then CURRENT_SCHEMA_VERSION else data.schemaVersion)
    && now.game.lastRaftIndex == if index > 0 then index else data.lastRaftIndex
  }

  lemma {:induction false} ExtendKeepsId(g: Game, raws: seq<Raw>)
    requires forall raw :: raw in raws && raw.Decoded? && raw.action.kind.GameStart? && raw.action.kind.start.Some?
               ==> raw.action.kind.start.value.id == g.id
    ensures Extend(g, DecodedPrefix(raws)).id == g.id
    decreases |raws|
  {
    if raws != [] && raws[0].Decoded? {
      assert raws[0] in raws;
      ExtendKeepsId(Applied(g, raws[0].action), raws[1..]);
    }
  }

  lemma StoresUnderItsKey(current: Loaded, cmd: Command, index: nat)
    requires WellKeyed(cmd) && Keyed(current, cmd.id)
    ensures Decide(current, cmd, index).0.Some? ==> Decide(current, cmd, index).0.value.id == cmd.id
    ensures Keyed(Step(current, cmd, index), cmd.id)
  {
    if cmd.ApplyActions? && !current.Unreadable? {
      ExtendKeepsId(if current.Present? then current.game else NewGame(cmd.id), Raws(cmd));
    }
  }

  // ---- History is append-only ----

  ghost predicate KeepsHistory(cmd: Command) {
    cmd.ApplyActions? || (cmd.SaveGame? && !cmd.force)
  }

  ghost function StepIfMine(current: Loaded, id: Id, e: Entry): Loaded {
    if e.cmd.id == id then Step(current, e.cmd, e.index) else current
  }

  /** One game through a stretch of the log: the entries for other games pass it by. */
  ghost function Run(current: Loaded, id: Id, entries: seq<Entry>): Loaded
    decreases |entries|
  {
    if entries == [] then current else Run(StepIfMine(current, id, entries[0]), id, entries[1..])
  }

  lemma StepKeepsHistory(current: Loaded, cmd: Command, index: nat)
    requires current.Present? && KeepsHistory(cmd)
    ensures Step(current, cmd, index).Present?
    ensures ExtendsHistory(current.game.log, Step(current, cmd, index).game.log)
  {
    if cmd.ApplyActions? {
      ExtendIsExtendLog(current.game, DecodedPrefix(Raws(cmd)));
      ExtendLogGrows(current.game.log, DecodedPrefix(Raws(cmd)));
    }
  }

  /** Over any run of actions and unforced saves, a game's ids only ever gain a suffix. */
  lemma {:induction false} HistoryIsAppendOnly(current: Loaded, id: Id, entries: seq<Entry>)
    requires current.Present?
    requires forall e :: e in entries ==> KeepsHistory(e.cmd)
    ensures Run(current, id, entries).Present?
    ensures ExtendsHistory(current.game.log, Run(current, id, entries).game.log)
    decreases |entries|
  {
    if entries != [] {
      StepKeepsHistory(current, entries[0].cmd, entries[0].index);
      HistoryIsAppendOnly(StepIfMine(current, id, entries[0]), id, entries[1..]);
    }
  }

  // ---- The state machine ----

  class FSM {
    const gs: GameStore
    /** False when there is no Raft manager: every save then goes straight to disk. */
    const clustered: bool

    constructor (gs: GameStore, clustered: bool)
      ensures this.gs == gs && this.clustered == clustered
    {
      this.gs, this.clustered := gs, clustered;
    }

    static method CheckGameConflict(incoming: Game, existing: Game) returns (ok: bool)
      ensures ok == ExtendsHistory(existing.log, incoming.log)
    {
      if |incoming.log| < |existing.log| {
        return false;
      }
      for i := 0 to |existing.log|
        invariant forall j :: 0 <= j < i ==> existing.log[j].id == incoming.log[j].id
      {
        if existing.log[i].id != incoming.log[i].id {
          return false;
        }
      }
      ok := true;
    }

    /** What a save stores over the existing game, if anything. */
    static method CheckSave(id: Id, existing: Loaded, data: Option<Game>, index: nat, force: bool)
      returns (stored: Option<Game>, outcome: Outcome)
      ensures (stored, outcome) == Decide(existing, SaveGame(id, data, force), index)
      ensures SaveAnswers(existing, data, index, force, outcome)
      ensures stored.Some? <==> data.Some? && GoesThrough(existing, data.value, index, force)
      ensures stored.Some? ==> SavedAs(data.value, index, stored.value)
    {
      if data.None? {
        return None, Failed(BadGameData);
      }
      var g := data.value;
      if existing.Present? {
        if index > 0 && index <= existing.game.lastRaftIndex {
          return None, Done;
        }
        if !force {
          var ok := CheckGameConflict(g, existing.game);
          if !ok {
            return None, Failed(Conflict);
          }
        }
      }
      if index > 0 {
        g := g.(lastRaftIndex := index);
      }
      stored, outcome := Some(Repaired(g)), Done;
    }

    method ApplySaveGame(id: Id, data: Option<Game>, index: nat, force: bool) returns (outcome: Outcome)
      requires gs.Valid()
      modifies gs
      ensures Applies(SaveGame(id, data, force), index, outcome)
      ensures SaveAnswers(old(gs.At(id)), data, index, force, outcome)
      ensures data.Some? && GoesThrough(old(gs.At(id)), data.value, index, force) ==>
                StoredAtOnce(gs.At(data.value.id), gs.Held(data.value.id), gs.File(data.value.id), data.value, index)
    {
      hide Decide, LookUp, Newest, Copy, Normalized, GoesThrough, SaveAnswers, SavedAs, StoredAtOnce;
      var existing := gs.LoadGame(id);
      var stored;
      stored, outcome := CheckSave(id, existing, data, index, force);
      if stored.Some? {
        gs.SaveGame(stored.value);
        SavedAtOnce(stored.value, data.value, index);
      }
    }

    /** The saved game is what loads answer and what the file holds, at once. */
    static ghost predicate StoredAtOnce(now: Loaded, held: Option<Game>, file: Option<Game>, data: Game, index: nat) {
      now.Present? && held.Some? && file == held && SavedAs(data, index, held.value) && now.game == Normalized(held.value)
    }

    static lemma SavedAtOnce(g: Game, data: Game, index: nat)
      requires SavedAs(data, index, g)
      ensures g.id == data.id && StoredAtOnce(Present(Normalized(g)), Some(g), Some(g), data, index)
    {
    }

    static method AppendAll(g: Game, action: Raw, actions: seq<Raw>) returns (result: Game, changed: bool, ok: bool)
      ensures var raws := if |actions| > 0 then actions else [action];
              && ok == Decodes(raws)
              && result == Extend(g, DecodedPrefix(raws))
      ensures changed == (result.log != g.log)
    {
      if |actions| > 0 {
        result, changed, ok := Actions.ApplyActions(g, actions);
      } else {
        result, changed, ok := Actions.ApplyAction(g, action);
        SingleAction(g, action);
      }
    }

    /** What a batch of actions stores over the loaded game, if anything. */
    static method CheckActions(id: Id, loaded: Loaded, action: Raw, actions: seq<Raw>, index: nat)
      returns (stored: Option<Game>, outcome: Outcome)
      ensures (stored, outcome) == Decide(loaded, ApplyActions(id, action, actions), index)
      ensures ActionsAnswer(loaded, if |actions| > 0 then actions else [action], index, outcome)
      ensures stored.Some? <==> Lands(loaded, if |actions| > 0 then actions else [action], index)
      ensures stored.Some? ==>
                ExtendedAs(if loaded.Present? then loaded.game else NewGame(id), if |actions| > 0 then actions else [action],
                           index, stored.value)
    {
      hide ExtendedAs;
      if loaded.Unreadable? {
        return None, Failed(UnreadableGame);
      }
      var g := if loaded.Present? then loaded.game else NewGame(id);
      if index > 0 && index <= g.lastRaftIndex {
        return None, Done;
      }
      var result, changed, ok := AppendAll(g, action, actions);
      if !ok {
        return None, Failed(BadAction);
      }
      ghost var raws := if |actions| > 0 then actions else [action];
      ExtendIsExtendLog(g, DecodedPrefix(raws));
      ExtendIsExtended(g, raws, index, Stamped(result, index));
      if index > 0 {
        result := result.(lastRaftIndex := index);
      } else if !changed {
        return None, Done;
      }
      stored, outcome := Some(result), Done;
    }

    method ApplyActionBatch(id: Id, action: Raw, actions: seq<Raw>, index: nat) returns (outcome: Outcome)
      requires gs.Valid()
      modifies gs
      ensures Applies(ApplyActions(id, action, actions), index, outcome)
      ensures ActionsAnswer(old(gs.At(id)), if |actions| > 0 then actions else [action], index, outcome)
      ensures Lands(old(gs.At(id)), if |actions| > 0 then actions else [action], index) ==>
                exists stored: Game ::
                  && ExtendedAs(if old(gs.At(id)).Present? then old(gs.At(id)).game else NewGame(id),
                                if |actions| > 0 then actions else [action], index, stored)
                  && gs.At(stored.id) == Present(Normalized(stored)) && gs.Held(stored.id) == Some(stored)
                  && gs.File(stored.id) == if clustered then old(gs.File(stored.id)) else Some(stored)
    {
      hide Decide, LookUp, Newest, Copy, Normalized, Lands, ActionsAnswer, ExtendedAs;
      var loaded := gs.LoadGame(id);
      var stored;
      stored, outcome := CheckActions(id, loaded, action, actions, index);
      if stored.Some? {
        gs.SaveGameInMemory(stored.value, !clustered);
      }
    }

    method ApplyDeleteGame(id: Id, index: nat) returns (outcome: Outcome)
      requires gs.Valid()
      modifies gs
      ensures Applies(DeleteGame(id), index, outcome)
      ensures outcome == if old(gs.At(id)).Unreadable? then Failed(UnreadableGame) else Done
      ensures var before := old(gs.At(id));
              before.Present? && !Stale(before, index) ==>
                && gs.At(id).Present? && IsTombstone(gs.At(id).game, id, before.game.details.ownerId)
                && gs.File(id) == gs.Held(id) == Some(gs.At(id).game)
    {
      hide LookUp, Newest, Copy, Normalized, Tombstone, IsTombstone;
      var existing := gs.LoadGame(id);
      if existing.Present? && index > 0 && index <= existing.game.lastRaftIndex {
        return Done;
      }
      if existing.Present? {
        TombstoneIsNormalized(id, existing.game.details.ownerId);
      }
      var ok := gs.DeleteGame(id);
      outcome := if ok then Done else Failed(UnreadableGame);
    }

    method ApplyCommand(cmd: Command, index: nat) returns (outcome: Outcome)
      requires gs.Valid()
      modifies gs
      ensures Applies(cmd, index, outcome)
    {
      match cmd
      case SaveGame(id, data, force) => outcome := ApplySaveGame(id, data, index, force);
      case ApplyActions(id, action, actions) => outcome := ApplyActionBatch(id, action, actions, index);
      case DeleteGame(id) => outcome := ApplyDeleteGame(id, index);
    }

    /** One command has been applied: its outcome, every later load, the copy the store goes by, and how far each file
        may lag. */
    twostate predicate Applies(cmd: Command, index: nat, outcome: Outcome)
      reads gs
    {
      var (stored, decided) := Decide(old(gs.At(cmd.id)), cmd, index);
      && gs.Valid()
      && outcome == decided
      && (forall id :: gs.At(id) ==
            if stored.Some? && stored.value.id == id then Present(Normalized(stored.value)) else old(gs.At(id)))
      && (forall id :: gs.Held(id) == if stored.Some? && stored.value.id == id then stored else old(gs.Held(id)))
      && (forall id :: MayLag(old(gs.File(id)), gs.File(id), gs.Held(id)))
    }
  }

  lemma SingleAction(g: Game, raw: Raw)
    ensures Decodes([raw]) == raw.Decoded?
    ensures Extend(g, DecodedPrefix([raw])) == if raw.Decoded? then Applied(g, raw.action) else g
  {
    assert [raw][0] == raw;
    if raw.Decoded? {
      assert DecodedPrefix([raw]) == [raw.action];
      assert Extend(g, [raw.action]) == Extend(Applied(g, raw.action), []);
    }
  }
}
