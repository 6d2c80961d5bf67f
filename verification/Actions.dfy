/** Games, their action logs, and how one action or a batch of them is appended
    (backend/gamestore.go, backend/validation.go).

    A game is a value: every load decodes a fresh copy, so no two holders share one.
    `DeletedAt`, rosters and substitutes are not part of this model. */
module Actions {
  import opened Wrappers

  /** Identifiers are only compared; NoId is the empty string. */
  datatype Id = NoId | Uuid(token: nat)

  const CURRENT_SCHEMA_VERSION := 3
  const SCHEMA_VERSION_V3 := 3
  const MAX_SCAN := 100

  /** User ids are normalized e-mail addresses; the empty one stands for anyone. */
  datatype UserId = Anyone | User(token: nat)

  datatype Role = AdminRole | WriteRole | ReadRole | OtherRole

  /** The public permission: absent, or one of the roles. */
  datatype Permissions = Permissions(public: Option<Role>, users: map<UserId, Role>)

  datatype Details = Details(
    ownerId: UserId, date: string, location: string, event: string, away: string, home: string,
    awayTeamId: Id, homeTeamId: Id, permissions: Permissions)

  const NO_DETAILS := Details(Anyone, "", "", "", "", "", NoId, NoId, Permissions(None, map[]))

  datatype Status = NoStatus | Ongoing | Final | Deleted

  datatype StartPayload = StartPayload(id: Id, details: Details)

  /** A metadata update carries only the fields it changes; the owner is not among them. */
  datatype UpdatePayload = UpdatePayload(
    date: Option<string>, location: Option<string>, event: Option<string>, away: Option<string>, home: Option<string>,
    awayTeamId: Option<Id>, homeTeamId: Option<Id>, permissions: Option<Permissions>)

  /** A payload of None is one that does not decode: the action is appended, its metadata is ignored. */
  datatype Kind =
    | GameStart(schemaVersion: int, start: Option<StartPayload>)
    | MetadataUpdate(update: Option<UpdatePayload>)
    | GameFinalize
    | Undo(refId: Id)
    | Play(body: string)

  datatype Action = Action(id: Id, kind: Kind)

  /** An action as it arrives: undecodable input reaches the append and fails there. */
  datatype Raw = Decoded(action: Action) | Malformed

  datatype Game = Game(
    id: Id, schemaVersion: int, status: Status, details: Details, log: seq<Action>,
    lastRaftIndex: nat, lastActionId: Id)

  /** `&Game{ID: id}`. */
  function NewGame(id: Id): Game {
    Game(id, 0, NoStatus, NO_DETAILS, [], 0, NoId)
  }

  /** What every successful load does to the decoded game: a version of 0 stands for the current one. */
  function Normalized(g: Game): (n: Game)
    ensures n.log == g.log && n.details == g.details && n.status == g.status && n.id == g.id
    ensures n.lastRaftIndex == g.lastRaftIndex && n.lastActionId == g.lastActionId
    ensures n.schemaVersion != 0 && (g.schemaVersion != 0 ==> n.schemaVersion == g.schemaVersion)
  {
    if g.schemaVersion == 0 then g.(schemaVersion := CURRENT_SCHEMA_VERSION) else g
  }

  /** `id` is carried by one of the last MAX_SCAN entries. */
  ghost predicate Recent(log: seq<Action>, id: Id) {
    exists i :: 0 <= i < |log| && |log| - MAX_SCAN <= i && log[i].id == id
  }

  function WithUpdate(d: Details, u: UpdatePayload): Details {
    d.(date := u.date.GetOr(d.date), location := u.location.GetOr(d.location), event := u.event.GetOr(d.event),
       away := u.away.GetOr(d.away), home := u.home.GetOr(d.home),
       awayTeamId := u.awayTeamId.GetOr(d.awayTeamId), homeTeamId := u.homeTeamId.GetOr(d.homeTeamId),
       permissions := u.permissions.GetOr(d.permissions))
  }

  /** The metadata side of an append. */
  function WithMetadata(g: Game, kind: Kind): Game {
    match kind
    case GameStart(v, start) =>
      var g1 := g.(schemaVersion := if v == 0 then CURRENT_SCHEMA_VERSION else v);
      if start.Some? then g1.(id := start.value.id, details := start.value.details) else g1
    case MetadataUpdate(update) =>
      if update.Some? then g.(details := WithUpdate(g.details, update.value)) else g
    case GameFinalize => g.(status := Final)
    case _ => g
  }

  ghost function Applied(g: Game, a: Action): Game {
    if Recent(g.log, a.id) then g
    else WithMetadata(g, a.kind).(log := g.log + [a], lastActionId := a.id)
  }

  /** The game after the actions in order. */
  ghost function Extend(g: Game, actions: seq<Action>): Game
    decreases |actions|
  {
    if actions == [] then g else Extend(Applied(g, actions[0]), actions[1..])
  }

  ghost function AppliedLog(log: seq<Action>, a: Action): seq<Action> {
    if Recent(log, a.id) then log else log + [a]
  }

  ghost function ExtendLog(log: seq<Action>, actions: seq<Action>): seq<Action>
    decreases |actions|
  {
    if actions == [] then log else ExtendLog(AppliedLog(log, actions[0]), actions[1..])
  }

  predicate Decodes(raws: seq<Raw>) {
    forall i :: 0 <= i < |raws| ==> raws[i].Decoded?
  }

  /** The actions up to the first one that does not decode. */
  function DecodedPrefix(raws: seq<Raw>): seq<Action> {
    if raws == [] || raws[0].Malformed? then [] else [raws[0].action] + DecodedPrefix(raws[1..])
  }

  /** A field of a payload that is absent leaves the old value. */
  predicate Carries<T(==)>(field: Option<T>, before: T, after: T) {
    match field
    case Some(x) => after == x
    case None => after == before
  }

  /** What each type of action does to each field of the metadata. */
  predicate MetadataFollows(kind: Kind, g: Game, h: Game) {
    match kind
    case GameStart(version, start) =>
      && h.schemaVersion == (if version == 0 then CURRENT_SCHEMA_VERSION else version) && h.status == g.status
      && (match start
          case Some(p) => h.id == p.id && h.details == p.details
          case None => h.id == g.id && h.details == g.details)
    case MetadataUpdate(update) =>
      && h.id == g.id && h.schemaVersion == g.schemaVersion && h.status == g.status
      && (match update
          case None => h.details == g.details
          case Some(u) =>
            && h.details.ownerId == g.details.ownerId
            && Carries(u.date, g.details.date, h.details.date)
            && Carries(u.location, g.details.location, h.details.location)
            && Carries(u.event, g.details.event, h.details.event)
            && Carries(u.away, g.details.away, h.details.away)
            && Carries(u.home, g.details.home, h.details.home)
            && Carries(u.awayTeamId, g.details.awayTeamId, h.details.awayTeamId)
            && Carries(u.homeTeamId, g.details.homeTeamId, h.details.homeTeamId)
            && Carries(u.permissions, g.details.permissions, h.details.permissions))
    case GameFinalize =>
      h.status == Final && h.id == g.id && h.schemaVersion == g.schemaVersion && h.details == g.details
    case Undo(_) => h.status == g.status && h.id == g.id && h.schemaVersion == g.schemaVersion && h.details == g.details
    case Play(_) => h.status == g.status && h.id == g.id && h.schemaVersion == g.schemaVersion && h.details == g.details
  }

  method ApplyAction(g: Game, raw: Raw) returns (result: Game, changed: bool, ok: bool)
    ensures ok == raw.Decoded?
    ensures !ok ==> result == g && !changed
    ensures ok ==> result == Applied(g, raw.action) && changed == !Recent(g.log, raw.action.id)
    ensures !changed ==> result == g
    ensures changed ==> result.log == g.log + [raw.action] && result.lastActionId == raw.action.id
    ensures changed ==> result.lastRaftIndex == g.lastRaftIndex && MetadataFollows(raw.action.kind, g, result)
  {
    result, changed, ok := g, false, false;
    if raw.Malformed? {
      return;
    }
    var action := raw.action;
    ok := true;
    var i, count := |g.log| - 1, 0;
    while i >= 0 && count < MAX_SCAN
      invariant -1 <= i < |g.log| && count == |g.log| - 1 - i && count <= MAX_SCAN
      invariant forall j :: i < j < |g.log| ==> g.log[j].id != action.id
    {
      if g.log[i].id == action.id {
        assert Recent(g.log, action.id);
        return;
      }
      i, count := i - 1, count + 1;
    }
    match action.kind {
      case GameStart(v, start) =>
        result := result.(schemaVersion := v);
        if result.schemaVersion == 0 {
          result := result.(schemaVersion := CURRENT_SCHEMA_VERSION);
        }
        if start.Some? {
          result := result.(id := start.value.id, details := start.value.details);
        }
      case MetadataUpdate(update) =>
        if update.Some? {
          result := result.(details := WithUpdate(result.details, update.value));
        }
      case GameFinalize =>
        result := result.(status := Final);
      case _ =>
    }
    result := result.(log := result.log + [action], lastActionId := action.id);
    changed := true;
  }

  method ApplyActions(g: Game, raws: seq<Raw>) returns (result: Game, changed: bool, ok: bool)
    ensures ok == Decodes(raws)
    ensures result == Extend(g, DecodedPrefix(raws))
    ensures changed == (result.log != g.log)
  {
    result, changed, ok := g, false, true;
    for k := 0 to |raws|
      invariant ok && forall j :: 0 <= j < k ==> raws[j].Decoded?
      invariant Extend(result, DecodedPrefix(raws[k..])) == Extend(g, DecodedPrefix(raws))
      invariant g.log <= result.log && changed == (result.log != g.log)
    {
      assert raws[k..][1..] == raws[k + 1..];
      var appended, appendedOk;
      result, appended, appendedOk := ApplyAction(result, raws[k]);
      if !appendedOk {
        ok := false;
        return;
      }
      changed := changed || appended;
    }
  }

  lemma {:induction false} DecodedPrefixAll(raws: seq<Raw>)
    requires Decodes(raws)
    ensures |DecodedPrefix(raws)| == |raws|
    ensures forall i :: 0 <= i < |raws| ==> DecodedPrefix(raws)[i] == raws[i].action
  {
    if raws != [] {
      DecodedPrefixAll(raws[1..]);
    }
  }

  /** The log after a batch depends on the log alone. */
  lemma {:induction false} ExtendIsExtendLog(g: Game, actions: seq<Action>)
    ensures Extend(g, actions).log == ExtendLog(g.log, actions)
    decreases |actions|
  {
    if actions != [] {
      ExtendIsExtendLog(Applied(g, actions[0]), actions[1..]);
    }
  }

  // ---- The metadata is a function of the log ----

  /** The parts of a game that actions set. */
  datatype Field =
    | IdField | OwnerField | DateField | LocationField | EventField | AwayField | HomeField
    | AwayTeamField | HomeTeamField | PermissionsField | StatusField | VersionField

  datatype Value =
    | IdValue(id: Id) | UserValue(user: UserId) | Text(text: string) | PermissionsValue(permissions: Permissions)
    | StatusValue(status: Status) | VersionValue(version: int)

  function FieldOf(g: Game, f: Field): Value {
    match f
    case IdField => IdValue(g.id)
    case OwnerField => UserValue(g.details.ownerId)
    case DateField => Text(g.details.date)
    case LocationField => Text(g.details.location)
    case EventField => Text(g.details.event)
    case AwayField => Text(g.details.away)
    case HomeField => Text(g.details.home)
    case AwayTeamField => IdValue(g.details.awayTeamId)
    case HomeTeamField => IdValue(g.details.homeTeamId)
    case PermissionsField => PermissionsValue(g.details.permissions)
    case StatusField => StatusValue(g.status)
    case VersionField => VersionValue(g.schemaVersion)
  }

  /** What an action says about a field, if anything. */
  function Says(kind: Kind, f: Field): Option<Value> {
    match kind
    case GameStart(version, start) =>
      if f.VersionField? then Some(VersionValue(if version == 0 then CURRENT_SCHEMA_VERSION else version))
      else if f.StatusField? || start.None? then None
      else Some(FieldOf(NewGame(start.value.id).(details := start.value.details), f))
    case MetadataUpdate(update) => if update.None? then None else UpdateSays(update.value, f)
    case GameFinalize => if f.StatusField? then Some(StatusValue(Final)) else None
    case _ => None
  }

  function UpdateSays(u: UpdatePayload, f: Field): Option<Value> {
    match f
    case DateField => Wrapped(u.date, x => Text(x))
    case LocationField => Wrapped(u.location, x => Text(x))
    case EventField => Wrapped(u.event, x => Text(x))
    case AwayField => Wrapped(u.away, x => Text(x))
    case HomeField => Wrapped(u.home, x => Text(x))
    case AwayTeamField => Wrapped(u.awayTeamId, x => IdValue(x))
    case HomeTeamField => Wrapped(u.homeTeamId, x => IdValue(x))
    case PermissionsField => Wrapped(u.permissions, x => PermissionsValue(x))
    case _ => None
  }

  function Wrapped<T>(field: Option<T>, value: T -> Value): Option<Value> {
    match field
    case Some(x) => Some(value(x))
    case None => None
  }

  /** What a stretch of log leaves in a field: the last word on it, else what was there before. */
  function LastWord(before: Value, log: seq<Action>, f: Field): Value
    decreases |log|
  {
    if log == [] then before
    else
      match Says(log[|log| - 1].kind, f)
      case Some(v) => v
      case None => LastWord(before, log[..|log| - 1], f)
  }

  lemma {:induction false} LastWordConcat(before: Value, xs: seq<Action>, ys: seq<Action>, f: Field)
    ensures LastWord(before, xs + ys, f) == LastWord(LastWord(before, xs, f), ys, f)
    decreases |ys|
  {
    if ys == [] {
      assert xs + ys == xs;
    } else {
      assert (xs + ys)[..|xs + ys| - 1] == xs + ys[..|ys| - 1];
      LastWordConcat(before, xs, ys[..|ys| - 1], f);
    }
  }

  lemma AppendedSays(g: Game, a: Action, f: Field)
    requires !Recent(g.log, a.id)
    ensures FieldOf(Extend(g, [a]), f) == LastWord(FieldOf(g, f), [a], f)
  {
    assert Extend(g, [a]) == Extend(Applied(g, a), []) == Applied(g, a);
    assert [a][..0] == [];
  }

  /** The game is what its log says: after any batch each field holds the last word on it among the appended actions,
      or what it held before. Duplicates have no say. */
  lemma {:induction false} LastWordWins(g: Game, actions: seq<Action>, f: Field)
    ensures g.log <= Extend(g, actions).log
    ensures FieldOf(Extend(g, actions), f) == LastWord(FieldOf(g, f), Extend(g, actions).log[|g.log|..], f)
    decreases |actions|
  {
    hide Recent, Says, FieldOf;
    if actions == [] {
      assert g.log[|g.log|..] == [];
    } else {
      var a, rest := actions[0], actions[1..];
      var next := Extend(g, [a]);
      assert next == Extend(Applied(g, a), []) == Applied(g, a);
      LastWordWins(next, rest, f);
      var end := Extend(g, actions).log;
      if Recent(g.log, a.id) {
        assert next == g;
      } else {
        AppendedSays(g, a, f);
        assert next.log == g.log + [a] && end[|g.log|..] == [a] + end[|next.log|..];
        LastWordConcat(FieldOf(g, f), [a], end[|next.log|..], f);
      }
    }
  }

  lemma {:induction false} ExtendConcat(g: Game, xs: seq<Action>, ys: seq<Action>)
    ensures Extend(g, xs + ys) == Extend(Extend(g, xs), ys)
    decreases |xs|
  {
    if xs == [] {
      assert xs + ys == ys;
    } else {
      assert (xs + ys)[1..] == xs[1..] + ys;
      ExtendConcat(Applied(g, xs[0]), xs[1..], ys);
    }
  }

  /** History is append-only: a batch only ever adds a suffix, drawn from the batch in order. */
  lemma {:induction false} ExtendLogGrows(log: seq<Action>, actions: seq<Action>)
    ensures log <= ExtendLog(log, actions)
    ensures |ExtendLog(log, actions)| <= |log| + |actions|
    ensures forall i :: |log| <= i < |ExtendLog(log, actions)| ==> ExtendLog(log, actions)[i] in actions
    decreases |actions|
  {
    if actions != [] {
      ExtendLogGrows(AppliedLog(log, actions[0]), actions[1..]);
    }
  }

  /** An append that is dropped as a duplicate leaves the metadata alone too. */
  lemma {:induction false} NoMetadataWithoutAppend(g: Game, actions: seq<Action>)
    ensures |g.log| <= |Extend(g, actions).log|
    ensures Extend(g, actions).log == g.log ==> Extend(g, actions) == g
    ensures g.log == [] && actions != [] ==> Extend(g, actions).log != []
    decreases |actions|
  {
    if actions != [] {
      NoMetadataWithoutAppend(Applied(g, actions[0]), actions[1..]);
    }
  }

  /** Entries at most MAX_SCAN apart carry different ids, so any MAX_SCAN + 1 consecutive ones are distinct. */
  ghost predicate WindowDistinct(log: seq<Action>) {
    forall i, j :: 0 <= i < j < |log| && j - i <= MAX_SCAN ==> log[i].id != log[j].id
  }

  lemma {:induction false} WindowStaysDistinct(log: seq<Action>, actions: seq<Action>)
    requires WindowDistinct(log)
    ensures WindowDistinct(ExtendLog(log, actions))
    decreases |actions|
  {
    if actions != [] {
      var next := AppliedLog(log, actions[0]);
      assert WindowDistinct(next) by {
        forall i, j | 0 <= i < j < |next| && j - i <= MAX_SCAN
          ensures next[i].id != next[j].id
        {
        }
      }
      WindowStaysDistinct(next, actions[1..]);
    }
  }

  /** The batch from position k on is still unseen when its turn comes. */
  ghost predicate Unseen(log: seq<Action>, actions: seq<Action>) {
    forall k :: 0 <= k < |actions| ==> !Recent(log + actions[..k], actions[k].id)
  }

  lemma UnseenOfRest(log: seq<Action>, actions: seq<Action>)
    requires actions != []
    ensures Unseen(log, actions) <==> !Recent(log, actions[0].id) && Unseen(log + [actions[0]], actions[1..])
  {
    hide Recent;
    var a, rest := actions[0], actions[1..];
    assert log + actions[..0] == log;
    forall k | 0 <= k < |rest|
      ensures log + [a] + rest[..k] == log + actions[..k + 1]
    {
    }
    if Unseen(log, actions) {
      forall k | 0 <= k < |rest|
        ensures !Recent(log + [a] + rest[..k], rest[k].id)
      {
        assert !Recent(log + actions[..k + 1], actions[k + 1].id);
      }
      assert !Recent(log + actions[..0], actions[0].id);
    }
    if !Recent(log, a.id) && Unseen(log + [a], rest) {
      forall k | 0 <= k < |actions|
        ensures !Recent(log + actions[..k], actions[k].id)
      {
        assert k > 0 ==> !Recent(log + [a] + rest[..k - 1], rest[k - 1].id);
      }
    }
  }

  /** A batch lands whole exactly when no member is still in the duplicate window at its turn. */
  lemma {:induction false} LandsWholeIffUnseen(log: seq<Action>, actions: seq<Action>)
    ensures ExtendLog(log, actions) == log + actions <==> Unseen(log, actions)
    decreases |actions|
  {
    hide Unseen, Recent;
    if actions == [] {
      assert log + actions == log && Unseen(log, []) by { NothingIsUnseen(log); }
    } else {
      var a, rest := actions[0], actions[1..];
      UnseenOfRest(log, actions);
      if Recent(log, a.id) {
        ExtendLogGrows(log, rest);
      } else {
        LandsWholeIffUnseen(log + [a], rest);
        assert log + [a] + rest == log + actions;
      }
    }
  }

  lemma NothingIsUnseen(log: seq<Action>)
    ensures Unseen(log, [])
  {
  }

  ghost predicate DistinctIds(log: seq<Action>) {
    forall i, j :: 0 <= i < j < |log| ==> log[i].id != log[j].id
  }

  ghost predicate SharesNoId(xs: seq<Action>, ys: seq<Action>) {
    forall i, j :: 0 <= i < |xs| && 0 <= j < |ys| ==> xs[i].id != ys[j].id
  }

  lemma FreshIsUnseen(log: seq<Action>, actions: seq<Action>)
    requires DistinctIds(actions) && SharesNoId(log, actions)
    ensures Unseen(log, actions)
  {
  }

  /** The first n actions repeat, id by id, the last n entries of the log. */
  ghost predicate Repeats(log: seq<Action>, actions: seq<Action>, n: nat) {
    n <= |log| && n <= |actions| && forall k :: 0 <= k < n ==> log[|log| - n + k].id == actions[k].id
  }

  /** Re-applying a whole retried batch equals applying only its new part, as long as the repeated
      part fits in the duplicate window. */
  lemma {:induction false} RetryIsAbsorbed(g: Game, actions: seq<Action>, n: nat)
    requires Repeats(g.log, actions, n) && n <= MAX_SCAN
    ensures Extend(g, actions) == Extend(g, actions[n..])
    decreases n
  {
    if n > 0 {
      assert g.log[|g.log| - n].id == actions[0].id;
      assert Recent(g.log, actions[0].id);
      assert actions[1..][n - 1..] == actions[n..];
      RetryIsAbsorbed(g, actions[1..], n - 1);
    }
  }

  /** The bound is tight: a longer repeat of distinct ids slips past the window and is appended again. */
  lemma RetryIsAbsorbedIffInWindow(g: Game, actions: seq<Action>, n: nat)
    requires 0 < n && Repeats(g.log, actions, n) && DistinctIds(g.log) && DistinctIds(actions)
    ensures Extend(g, actions) == Extend(g, actions[n..]) <==> n <= MAX_SCAN
  {
    if n <= MAX_SCAN {
      RetryIsAbsorbed(g, actions, n);
    } else {
      assert g.log[|g.log| - n].id == actions[0].id;
      assert !Recent(g.log, actions[0].id);
      ExtendIsExtendLog(g, actions);
      ExtendIsExtendLog(g, actions[n..]);
      ExtendLogGrows(g.log + [actions[0]], actions[1..]);
      ExtendLogGrows(g.log, actions[n..]);
      var again, once := ExtendLog(g.log, actions), ExtendLog(g.log, actions[n..]);
      assert again[|g.log|] == actions[0];
      if |once| > |g.log| {
        var i :| 0 <= i < |actions[n..]| && actions[n..][i] == once[|g.log|];
        assert actions[n + i].id != actions[0].id;
      }
    }
  }
}
