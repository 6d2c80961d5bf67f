/** The hub that serializes all requests for one game (backend/websocket.go), without a Raft manager.

    The teams as stored and the payload checks are parameters; user ids are already normalized. */
module Hub {
  import opened Wrappers
  import opened Actions
  import opened GameStore
  import opened Auth
  import opened Sync
  import opened Spectator

  /** The batch, when there is one, takes the place of the single action. */
  datatype Message = Message(action: Raw, actions: seq<Raw>, baseRevision: Id)

  datatype Reply = Ack | Conflict(head: Id) | Error | SyncUpdate(missing: seq<Action>)

  type ClientId = nat

  const SEND_BUFFER := 256

  function Payload(msg: Message): seq<Raw> {
    if |msg.actions| > 0 then msg.actions else [msg.action]
  }

  /** The level an action is judged by: starting a game that does not exist yet makes its declared owner a writer,
      for this action and the rest of the batch. */
  function Elevated(level: Access, action: Action, exists_: bool, userId: UserId): Access {
    if action.kind.GameStart? && !exists_ && action.kind.start.Some? && action.kind.start.value.details.ownerId == userId
    then Write else level
  }

  function Permitted(level: Access, action: Action): bool {
    AtLeast(level, if action.kind.MetadataUpdate? then Admin else Write)
  }

  function Authorized(level: Access, actions: seq<Action>, exists_: bool, userId: UserId): bool
    decreases |actions|
  {
    actions == []
    || (Permitted(Elevated(level, actions[0], exists_, userId), actions[0])
        && Authorized(Elevated(level, actions[0], exists_, userId), actions[1..], exists_, userId))
  }

  /** The action starts a game that does not exist yet and names the user as its owner. */
  predicate StartsOwn(action: Action, exists_: bool, userId: UserId) {
    && action.kind.GameStart? && !exists_
    && action.kind.start.Some? && action.kind.start.value.details.ownerId == userId
  }

  ghost predicate Started(actions: seq<Action>, k: nat, exists_: bool, userId: UserId)
    requires k < |actions|
  {
    exists j :: 0 <= j <= k && StartsOwn(actions[j], exists_, userId)
  }

  /** Who may post the action at `k`: a metadata update takes an admin, and no game started by the user at or before it;
      any other action takes a writer or an admin, or such a start. */
  ghost predicate MayPostAt(level: Access, actions: seq<Action>, k: nat, exists_: bool, userId: UserId)
    requires k < |actions|
  {
    if actions[k].kind.MetadataUpdate? then level == Admin && !Started(actions, k, exists_, userId)
    else Started(actions, k, exists_, userId) || level == Write || level == Admin
  }

  ghost predicate MayPost(level: Access, actions: seq<Action>, exists_: bool, userId: UserId) {
    forall k :: 0 <= k < |actions| ==> MayPostAt(level, actions, k, exists_, userId)
  }

  lemma StartedLater(actions: seq<Action>, k: nat, exists_: bool, userId: UserId)
    requires k + 1 < |actions|
    ensures Started(actions, k + 1, exists_, userId)
       <==> StartsOwn(actions[0], exists_, userId) || Started(actions[1..], k, exists_, userId)
  {
    var rest := actions[1..];
    if Started(actions, k + 1, exists_, userId) {
      var j :| 0 <= j <= k + 1 && StartsOwn(actions[j], exists_, userId);
      assert j > 0 ==> rest[j - 1] == actions[j];
    }
    if Started(rest, k, exists_, userId) {
      var j :| 0 <= j <= k && StartsOwn(rest[j], exists_, userId);
      assert actions[j + 1] == rest[j];
    }
  }

  lemma FirstMayPost(level: Access, actions: seq<Action>, exists_: bool, userId: UserId)
    requires actions != []
    ensures MayPostAt(level, actions, 0, exists_, userId)
       <==> Permitted(Elevated(level, actions[0], exists_, userId), actions[0])
  {
    assert Started(actions, 0, exists_, userId) <==> StartsOwn(actions[0], exists_, userId);
  }

  lemma LaterMayPost(level: Access, actions: seq<Action>, k: nat, exists_: bool, userId: UserId)
    requires k + 1 < |actions|
    ensures MayPostAt(level, actions, k + 1, exists_, userId)
       <==> MayPostAt(Elevated(level, actions[0], exists_, userId), actions[1..], k, exists_, userId)
  {
    hide Started;
    StartedLater(actions, k, exists_, userId);
  }

  /** The running level authorizes a batch exactly if every position of it may be posted. */
  lemma {:induction false} AuthorizedIffMayPost(level: Access, actions: seq<Action>, exists_: bool, userId: UserId)
    ensures Authorized(level, actions, exists_, userId) <==> MayPost(level, actions, exists_, userId)
    decreases |actions|
  {
    hide MayPostAt, Permitted, Elevated;
    if actions != [] {
      var rest, next := actions[1..], Elevated(level, actions[0], exists_, userId);
      AuthorizedIffMayPost(next, rest, exists_, userId);
      FirstMayPost(level, actions, exists_, userId);
      forall k | 0 <= k < |rest|
        ensures MayPostAt(level, actions, k + 1, exists_, userId) <==> MayPostAt(next, rest, k, exists_, userId)
      {
        LaterMayPost(level, actions, k, exists_, userId);
      }
      if MayPost(next, rest, exists_, userId) && MayPostAt(level, actions, 0, exists_, userId) {
        forall k | 0 <= k < |actions|
          ensures MayPostAt(level, actions, k, exists_, userId)
        {
          assert k > 0 ==> MayPostAt(next, rest, k - 1, exists_, userId);
        }
      }
      if MayPost(level, actions, exists_, userId) {
        forall k | 0 <= k < |rest|
          ensures MayPostAt(next, rest, k, exists_, userId)
        {
          assert MayPostAt(level, actions, k + 1, exists_, userId);
        }
      }
    }
  }

  /** For whatever a client holds, log and buffer moved as the spectator protocol says. */
  ghost predicate IsPost(oldLog: seq<Action>, before: map<ClientId, seq<Action>>,
                         newLog: seq<Action>, after: map<ClientId, seq<Action>>, msg: Message) {
    forall c, held :: (c in before && c in after)
      ==> Net(newLog, held, after[c]) == Next(Net(oldLog, held, before[c]), Post(msg.baseRevision, DecodedPrefix(Payload(msg))))
  }

  class GameHub {
    const id: Id
    const gs: GameStore
    /** The checks on payloads that do not look at the game. */
    const payloadOk: Action -> bool
    var game: Game
    var clients: map<ClientId, seq<Action>>

    /** A failed load answers every request with an error; no hub state exists then. */
    constructor (id: Id, gs: GameStore, payloadOk: Action -> bool)
      requires gs.Valid() && !gs.At(id).Unreadable?
      requires gs.At(id).Present? ==> Named(gs.At(id).game.log)
      modifies gs
      ensures Valid() && this.id == id && this.gs == gs && clients == map[]
      ensures game == if gs.At(id).Present? then gs.At(id).game else NewGame(id)
    {
      this.id, this.gs, this.payloadOk, clients := id, gs, payloadOk, map[];
      var loaded := gs.LoadGame(id);
      game := if loaded.Present? then loaded.game else NewGame(id);
    }

    /** Ids of stored actions are never empty. */
    ghost predicate Valid()
      reads this, gs
    {
      gs.Valid() && Named(game.log) && (gs.At(id).Present? ==> Named(gs.At(id).game.log))
    }

    predicate ActionOk(raw: Raw)
      reads this
    {
      raw.Decoded? && raw.action.id != NoId && payloadOk(raw.action)
    }

    predicate GameExists()
      reads this
    {
      game.log != [] || game.details.ownerId != Anyone
    }

    /** What the user may do with the game as the hub holds it. */
    function AccessOf(userId: UserId, teams: map<Id, Team>): Access
      reads this
    {
      GetGameAccess(userId, game.details, teams)
    }

    /** Size, form and permission. */
    ghost predicate Admissible(msg: Message, userId: UserId, access: Access)
      reads this
    {
      && |msg.actions| <= MAX_BATCH
      && (forall i :: 0 <= i < |Payload(msg)| ==> ActionOk(Payload(msg)[i]))
      && Authorized(access, DecodedPrefix(Payload(msg)), GameExists(), userId)
    }

    /** What answers a post with an error: too many actions, a malformed one, or one the user may not post. */
    ghost predicate Refuses(msg: Message, userId: UserId, access: Access)
      reads this
    {
      || |msg.actions| > 100
      || (exists i :: 0 <= i < |Payload(msg)| && !ActionOk(Payload(msg)[i]))
      || !MayPost(access, DecodedPrefix(Payload(msg)), game.log != [] || game.details.ownerId != Anyone, userId)
    }

    lemma RefusesIff(msg: Message, userId: UserId, access: Access)
      ensures Refuses(msg, userId, access) <==> !Admissible(msg, userId, access)
    {
      hide MayPost, Authorized;
      AuthorizedIffMayPost(access, DecodedPrefix(Payload(msg)), GameExists(), userId);
    }

    ghost predicate Startable(msg: Message)
      reads this
    {
      GameExists() || exists i :: 0 <= i < |Payload(msg)| && Payload(msg)[i].Decoded? && Payload(msg)[i].action.kind.GameStart?
    }

    /** The game a request is judged against: on a revision mismatch the store is asked again. */
    ghost function Current(base: Id): Game
      reads this, gs
    {
      if game.log != [] && base != Head(game.log) && gs.At(id).Present? then gs.At(id).game else game
    }

    /** Memory and store hold the same log, as they do while only the hub writes the game. */
    ghost predicate InStep()
      reads this, gs
    {
      game.log == if gs.At(id).Present? then gs.At(id).game.log else []
    }

    method Authorize(actions: seq<Action>, access: Access, userId: UserId) returns (ok: bool, isGameStart: bool)
      ensures ok == Authorized(access, actions, GameExists(), userId)
      ensures ok == MayPost(access, actions, game.log != [] || game.details.ownerId != Anyone, userId)
      ensures ok ==> (isGameStart <==> exists i :: 0 <= i < |actions| && actions[i].kind.GameStart?)
    {
      hide MayPost;
      AuthorizedIffMayPost(access, actions, GameExists(), userId);
      var level := access;
      isGameStart := false;
      for k := 0 to |actions|
        invariant Authorized(access, actions, GameExists(), userId) == Authorized(level, actions[k..], GameExists(), userId)
        invariant isGameStart <==> exists i :: 0 <= i < k && actions[i].kind.GameStart?
      {
        assert actions[k..][1..] == actions[k + 1..];
        level := Elevated(level, actions[k], GameExists(), userId);
        if actions[k].kind.GameStart? {
          isGameStart := true;
        }
        if !Permitted(level, actions[k]) {
          return false, isGameStart;
        }
      }
      ok := true;
    }

    static method FindRevision(log: seq<Action>, base: Id) returns (matchIndex: int, found: bool)
      ensures -1 <= matchIndex < |log| && found == (matchIndex >= 0)
      ensures matchIndex + 1 == After(log, base)
    {
      var i := |log| - 1;
      assert log[..i + 1] == log;
      while i >= 0
        invariant -1 <= i < |log|
        invariant After(log, base) == After(log[..i + 1], base)
      {
        if log[i].id == base {
          return i, true;
        }
        assert log[..i + 1][..i] == log[..i];
        i := i - 1;
      }
      matchIndex, found := -1, false;
    }

    /** Walks the log after the match and the batch side by side. */
    static method MatchPrefix(log: seq<Action>, start: nat, actions: seq<Action>) returns (batchIdx: nat, conflict: bool)
      requires start <= |log|
      ensures conflict == !Matches(log, start, actions)
      ensures !conflict ==> batchIdx == if |log| - start < |actions| then |log| - start else |actions|
    {
      var serverIdx := start;
      batchIdx, conflict := 0, false;
      while serverIdx < |log| && batchIdx < |actions|
        invariant serverIdx == start + batchIdx && serverIdx <= |log| && batchIdx <= |actions|
        invariant forall k :: 0 <= k < batchIdx ==> log[start + k].id == actions[k].id
      {
        if log[serverIdx].id != actions[batchIdx].id {
          return batchIdx, true;
        }
        serverIdx, batchIdx := serverIdx + 1, batchIdx + 1;
      }
    }

    /** The walk from the base: refused, already there, or still to be applied. */
    static method Reconcile(log: seq<Action>, base: Id, actions: seq<Action>) returns (accepted: bool, contained: bool)
      requires Named(log) && log != []
      ensures accepted == Accepts(log, base, actions)
      ensures accepted ==> contained == (After(log, base) + |actions| <= |log|)
    {
      var matchIndex := -1;
      AfterIsLast(log, base);
      if base != NoId {
        var found;
        matchIndex, found := FindRevision(log, base);
        if !found {
          return false, false;
        }
      }
      var batchIdx, conflict := MatchPrefix(log, matchIndex + 1, actions);
      accepted, contained := !conflict, batchIdx == |actions|;
    }

    method Admit(msg: Message, userId: UserId, access: Access) returns (ok: bool, isGameStart: bool)
      ensures ok == Admissible(msg, userId, access) == !Refuses(msg, userId, access)
      ensures ok ==> Decodes(Payload(msg)) && Named(DecodedPrefix(Payload(msg)))
      ensures ok ==> Startable(msg) == (GameExists() || isGameStart)
    {
      hide MayPost, Refuses;
      RefusesIff(msg, userId, access);
      if |msg.actions| > MAX_BATCH {
        return false, false;
      }
      var raws := Payload(msg);
      for k := 0 to |raws|
        invariant forall i :: 0 <= i < k ==> ActionOk(raws[i])
      {
        if !ActionOk(raws[k]) {
          return false, false;
        }
      }
      DecodedPrefixAll(raws);
      ok, isGameStart := Authorize(DecodedPrefix(raws), access, userId);
    }

    /** Apply to a copy, save it, and only then adopt it. */
    method Commit(raws: seq<Raw>) returns (changed: bool)
      requires Valid() && Decodes(raws) && Named(DecodedPrefix(raws))
      modifies this`game, gs
      ensures Valid() && game == Extend(old(game), DecodedPrefix(raws))
      ensures changed == (game.log != old(game).log)
      ensures changed ==> gs.At(game.id) == Present(Normalized(game)) && gs.File(game.id) == Some(game)
      ensures !changed ==> gs.At(id) == old(gs.At(id))
    {
      var clone, ok;
      clone, changed, ok := ApplyActions(game, raws);
      NoMetadataWithoutAppend(game, DecodedPrefix(raws));
      StaysNamed(game, DecodedPrefix(raws));
      if changed {
        gs.SaveGame(clone);
        game := clone;
      }
    }

    method Refresh(base: Id)
      requires Valid()
      modifies this`game, gs
      ensures Valid() && game == old(Current(base)) && Current(base) == game && gs.At(id) == old(gs.At(id))
    {
      if game.log != [] && base != Head(game.log) {
        var loaded := gs.LoadGame(id);
        if loaded.Present? {
          game := loaded.game;
        }
      }
    }

    /** An accepted batch only adds to the log, and all its actions are in it. */
    static lemma AcknowledgedIsHeld(current: Game, msg: Message)
      ensures current.log <= Accepted(current, msg.baseRevision, DecodedPrefix(Payload(msg))).log
      ensures Decodes(Payload(msg)) && Accepts(current.log, msg.baseRevision, DecodedPrefix(Payload(msg))) ==>
                forall raw :: raw in (if |msg.actions| > 0 then msg.actions else [msg.action]) ==>
                  raw.Decoded? && Holds(Accepted(current, msg.baseRevision, DecodedPrefix(Payload(msg))).log, raw.action.id)
    {
      hide Accepts, Holds, AcceptedLog;
      var raws, actions := Payload(msg), DecodedPrefix(Payload(msg));
      AcceptedIsAcceptedLog(current, msg.baseRevision, actions);
      AcceptedGrows(current.log, msg.baseRevision, actions);
      if Decodes(raws) && Accepts(current.log, msg.baseRevision, actions) {
        DecodedPrefixAll(raws);
        forall raw | raw in raws
          ensures raw.Decoded? && Holds(Accepted(current, msg.baseRevision, actions).log, raw.action.id)
        {
          var k :| 0 <= k < |raws| && raws[k] == raw;
          AcceptedHolds(current.log, msg.baseRevision, actions, k);
        }
      }
    }

    /** What answers an admitted post with a conflict: there is no game and none is started, or the batch does not follow
        its base. */
    ghost predicate OutOfPlace(msg: Message)
      reads this, gs
    {
      || (game.log == [] && game.details.ownerId == Anyone
          && forall i :: 0 <= i < |Payload(msg)| && Payload(msg)[i].Decoded? ==> !Payload(msg)[i].action.kind.GameStart?)
      || !Follows(Current(msg.baseRevision).log, msg.baseRevision, DecodedPrefix(Payload(msg)))
    }

    lemma OutOfPlaceIff(msg: Message)
      requires Valid()
      ensures OutOfPlace(msg)
         <==> !(Startable(msg) && Accepts(Current(msg.baseRevision).log, msg.baseRevision, DecodedPrefix(Payload(msg))))
    {
      hide Follows, Accepts;
      AcceptsIffFollows(Current(msg.baseRevision).log, msg.baseRevision, DecodedPrefix(Payload(msg)));
    }

    /** A batch is refused as an error, refused as a conflict, or acknowledged, by these conditions; acknowledged, the
        game is the accepted one; refused, the log keeps what it was. */
    method ProcessAction(msg: Message, userId: UserId, teams: map<Id, Team>) returns (reply: Reply, broadcasts: seq<Action>)
      requires Valid()
      modifies this`game, gs
      ensures Valid()
      ensures var current, actions := old(Current(msg.baseRevision)), DecodedPrefix(Payload(msg));
              var allowed, accepted := old(Admissible(msg, userId, AccessOf(userId, teams))),
                                       old(Startable(msg)) && Accepts(current.log, msg.baseRevision, actions);
              && (reply.Error? <==> !allowed)
              && (reply.Conflict? <==> allowed && !accepted)
              && (reply.Ack? <==> allowed && accepted)
              && (reply.Ack? ==> game == Accepted(current, msg.baseRevision, actions))
              && (!reply.Ack? ==> game == old(game) || game == current)
              && (broadcasts == if reply.Ack? && game.log != current.log then actions else [])
              && (broadcasts != [] ==> gs.At(game.id) == Present(Normalized(game)) && gs.File(game.id) == Some(game))
              && (reply.Conflict? ==> reply.head == Head(current.log))
      ensures !reply.Error? ==> (reply.Conflict? <==> old(OutOfPlace(msg)))
      ensures reply.Error? <==> old(Refuses(msg, userId, GetGameAccess(userId, game.details, teams)))
      ensures reply.Ack? ==>
                forall raw :: raw in (if |msg.actions| > 0 then msg.actions else [msg.action]) ==>
                  raw.Decoded? && Holds(game.log, raw.action.id)
      ensures reply.Ack? ==> old(game.log) <= game.log || old(gs.At(id)).Present?
      ensures reply.Ack? && old(game.log) != [] && msg.baseRevision != Head(old(game.log)) && old(gs.At(id)).Present? ==>
                old(gs.At(id)).game.log <= game.log
      ensures old(InStep()) && game.id == id ==> InStep()
      ensures old(InStep()) && !reply.Ack? ==> game.log == old(game.log)
    {
      hide GetGameAccess, LookUp, Copy, Extend, AtLeast, Named, Authorized, Refuses, Holds, OutOfPlace;
      OutOfPlaceIff(msg);
      AcknowledgedIsHeld(Current(msg.baseRevision), msg);
      var ok, isGameStart := Admit(msg, userId, AccessOf(userId, teams));
      if !ok {
        return Error, [];
      }
      if !GameExists() && !isGameStart {
        return Conflict(NoId), [];
      }
      Refresh(msg.baseRevision);
      if game.log != [] && msg.baseRevision != Head(game.log) {
        var accepted, contained := Reconcile(game.log, msg.baseRevision, DecodedPrefix(Payload(msg)));
        if !accepted {
          return Conflict(Head(game.log)), [];
        }
        if contained {
          return Ack, [];
        }
      }
      var changed := Commit(Payload(msg));
      reply, broadcasts := Ack, if changed then DecodedPrefix(Payload(msg)) else [];
    }

    /** Every client with room in its buffer gets the action; the others are dropped. */
    method Broadcast(a: Action)
      modifies this`clients
      ensures clients == map c | c in old(clients) && |old(clients)[c]| < SEND_BUFFER :: old(clients)[c] + [a]
    {
      var pending := clients.Keys;
      while pending != {}
        invariant pending <= old(clients).Keys
        invariant forall c :: c in pending ==> c in clients && clients[c] == old(clients)[c]
        invariant forall c :: c in old(clients) && c !in pending && |old(clients)[c]| < SEND_BUFFER
                    ==> c in clients && clients[c] == old(clients)[c] + [a]
        invariant forall c :: c in clients ==> c in old(clients)
        invariant forall c :: c in clients && c !in pending ==> |old(clients)[c]| < SEND_BUFFER
        decreases pending
      {
        var c :| c in pending;
        if |clients[c]| < SEND_BUFFER {
          clients := clients[c := clients[c] + [a]];
        } else {
          clients := clients - {c};
        }
        pending := pending - {c};
      }
    }

    method BroadcastAll(actions: seq<Action>)
      modifies this`clients
      ensures actions == [] ==> clients == old(clients)
      ensures forall c :: c in old(clients) ==>
                if actions == [] || |old(clients)[c]| + |actions| <= SEND_BUFFER
                then c in clients && clients[c] == old(clients)[c] + actions
                else c !in clients
    {
      for k := 0 to |actions|
        invariant k == 0 ==> clients == old(clients)
        invariant forall c :: c in old(clients) ==>
                    if k == 0 || |old(clients)[c]| + k <= SEND_BUFFER
                    then c in clients && clients[c] == old(clients)[c] + actions[..k]
                    else c !in clients
      {
        Broadcast(actions[k]);
      }
    }

    /** An acknowledged post is, for every client that keeps up, one step of the spectator protocol; a refused one
        changes no log and sends nothing. A client whose buffer is full is dropped. */
    method HandleHTTPAction(msg: Message, userId: UserId, teams: map<Id, Team>) returns (reply: Reply, ghost sent: seq<Action>)
      requires Valid() && InStep()
      modifies this, gs
      ensures Valid() && (game.id == id ==> InStep())
      ensures !reply.Ack? ==> game.log == old(game.log) && clients == old(clients)
      ensures reply.Ack? ==> IsPost(old(game.log), old(clients), game.log, clients, msg)
      ensures forall c :: c in old(clients) ==>
                (c in clients <==> sent == [] || |old(clients)[c]| + |sent| <= SEND_BUFFER)
    {
      ghost var current := Current(msg.baseRevision);
      AcceptedIsAcceptedLog(current, msg.baseRevision, DecodedPrefix(Payload(msg)));
      var broadcasts;
      reply, broadcasts := ProcessAction(msg, userId, teams);
      sent := broadcasts;
      BroadcastAll(broadcasts);
    }

    static method GetActionsSince(log: seq<Action>, revision: Id) returns (missing: seq<Action>, found: bool)
      requires revision != NoId
      ensures found == (0 < After(log, revision)) && missing == Since(log, revision)
    {
      var i := 0;
      while i < |log|
        invariant 0 <= i <= |log|
        invariant forall j :: 0 <= j < i ==> log[j].id != revision
        invariant Since(log, revision) == Since(log[i..], revision)
      {
        if log[i].id == revision {
          AfterIsLast(log, revision);
          return log[i + 1..], true;
        }
        assert log[i..][1..] == log[i + 1..];
        i := i + 1;
      }
      AfterIsLast(log, revision);
      missing, found := [], false;
    }

    /** The client says where it is; it is sent what follows, or told that it is somewhere else. */
    method HandleJoin(revision: Id, userId: UserId, teams: map<Id, Team>) returns (reply: Reply)
      requires Valid()
      ensures reply.Error? <==> GameExists() && AccessOf(userId, teams).NoAccess?
      ensures reply.Conflict? <==> (!reply.Error? && revision != NoId
                && (!GameExists() || (game.log != [] && !Holds(game.log, revision))))
      ensures reply.Conflict? ==> reply.head == Head(game.log)
      ensures reply.SyncUpdate? ==> reply.missing == JoinReply(game.log, revision)
      ensures reply.Ack? ==> JoinReply(game.log, revision) == []
    {
      AfterIsLast(game.log, revision);
      if GameExists() {
        if AccessOf(userId, teams).NoAccess? {
          return Error;
        }
      } else if revision != NoId {
        return Conflict(NoId);
      }
      if revision == NoId || revision == Head(game.log) {
        return Ack;
      }
      var missing, found := GetActionsSince(game.log, revision);
      if !found {
        return if game.log != [] then Conflict(Head(game.log)) else Ack;
      }
      reply := SyncUpdate(missing);
    }
  }
}
