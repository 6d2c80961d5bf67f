/** The write-back game store (backend/gamestore.go): a cache in front of the disk files, and the set of
    cached games whose disk copy is behind. Storage itself does not fail here. */
module GameStore {
  import opened Wrappers
  import opened Actions

  /** What LoadGame answers. A file with an old schema version is refused; a cached copy never is. */
  datatype Loaded = Present(game: Game) | Absent | Unreadable

  function Copy(games: map<Id, Game>, id: Id): Option<Game> {
    if id in games then Some(games[id]) else None
  }

  function FromFile(file: Option<Game>): Loaded {
    match file
    case None => Absent
    case Some(g) => if g.schemaVersion < SCHEMA_VERSION_V3 then Unreadable else Present(Normalized(g))
  }

  function ReadFile(disk: map<Id, Game>, id: Id): Loaded {
    FromFile(Copy(disk, id))
  }

  function LookUp(cache: map<Id, Game>, disk: map<Id, Game>, id: Id): Loaded {
    if id in cache then Present(Normalized(cache[id])) else ReadFile(disk, id)
  }

  /** A load is refused exactly for an old file behind no cached copy, finds nothing exactly where neither is, and
      otherwise answers the cached copy, or else the file. */
  lemma LookUpIff(cache: map<Id, Game>, disk: map<Id, Game>, id: Id)
    ensures LookUp(cache, disk, id).Unreadable? <==> id !in cache && id in disk && disk[id].schemaVersion < SCHEMA_VERSION_V3
    ensures LookUp(cache, disk, id).Absent? <==> id !in cache && id !in disk
    ensures LookUp(cache, disk, id).Present? ==>
              LookUp(cache, disk, id).game == Normalized(if id in cache then cache[id] else disk[id])
  {
  }

  /** The copy the store goes by, version and all: the cached one, else the file. */
  function Newest(cache: map<Id, Game>, disk: map<Id, Game>, id: Id): Option<Game> {
    if id in cache then Some(cache[id]) else Copy(disk, id)
  }

  /** A file after an operation: untouched, or brought up to date with the copy the store goes by. */
  predicate MayLag(before: Option<Game>, after: Option<Game>, newest: Option<Game>) {
    after == before || after == newest
  }

  function Tombstone(id: Id, ownerId: UserId): Game {
    Game(id, CURRENT_SCHEMA_VERSION, Deleted, NO_DETAILS.(ownerId := ownerId), [], 0, NoId)
  }

  lemma TombstoneIsNormalized(id: Id, ownerId: UserId)
    ensures Normalized(Tombstone(id, ownerId)) == Tombstone(id, ownerId)
    ensures IsTombstone(Tombstone(id, ownerId), id, ownerId)
  {
  }

  /** A deleted game: its owner, and nothing else of what it was. */
  predicate IsTombstone(g: Game, id: Id, ownerId: UserId) {
    && g.id == id && g.status == Deleted && g.log == [] && g.lastRaftIndex == 0 && g.lastActionId == NoId
    && g.schemaVersion == CURRENT_SCHEMA_VERSION && g.details == NO_DETAILS.(ownerId := ownerId)
  }

  predicate OldSchema(copy: Option<Game>) {
    copy.Some? && copy.value.schemaVersion < SCHEMA_VERSION_V3
  }

  /** Once everything is flushed, losing the cache is invisible exactly when no cached game carries an
      old schema version: such a game loads from memory and is refused from disk. */
  lemma RestartIsInvisibleIffNoOldSchema(cache: map<Id, Game>, disk: map<Id, Game>)
    requires forall id :: id in cache ==> id in disk && disk[id] == cache[id]
    ensures (forall id :: ReadFile(disk, id) == LookUp(cache, disk, id))
       <==> (forall id :: id in cache ==> cache[id].schemaVersion >= SCHEMA_VERSION_V3)
  {
    forall id | id in cache
      ensures ReadFile(disk, id) == LookUp(cache, disk, id) <==> cache[id].schemaVersion >= SCHEMA_VERSION_V3
    {
    }
  }

  // ---- The store as a plain map ----

  datatype Request =
    | Load(id: Id)
    | Save(game: Game)
    | SaveInMemory(game: Game, forceSync: bool)
    | Delete(id: Id)
    | FlushOne(id: Id)
    | FlushEverything

  function Effect(m: map<Id, Game>, request: Request): map<Id, Game> {
    match request
    case Save(g) => m[g.id := g]
    case SaveInMemory(g, _) => m[g.id := g]
    case Delete(id) => if id in m then m[id := Tombstone(id, m[id].details.ownerId)] else m
    case _ => m
  }

  function Effects(m: map<Id, Game>, requests: seq<Request>): map<Id, Game>
    decreases |requests|
  {
    if requests == [] then m else Effect(Effects(m, requests[..|requests| - 1]), requests[|requests| - 1])
  }

  /** A load from a plain map. */
  function LoadFrom(m: map<Id, Game>, id: Id): Loaded {
    if id in m then Present(Normalized(m[id])) else Absent
  }

  class GameStore {
    var cache: map<Id, Game>
    var dirty: set<Id>
    var disk: map<Id, Game>

    /** Games sit under their own id, a dirty game is cached, a clean cached game equals its file. */
    ghost predicate Valid()
      reads this
    {
      && dirty <= cache.Keys
      && (forall id :: id in cache ==> cache[id].id == id)
      && (forall id :: id in disk ==> disk[id].id == id)
      && (forall id :: id in cache && id !in dirty ==> id in disk && disk[id] == cache[id])
    }

    /** The answer of LoadGame for `id`. */
    ghost function At(id: Id): Loaded
      reads this
    {
      LookUp(cache, disk, id)
    }

    ghost function Held(id: Id): Option<Game>
      reads this
    {
      Newest(cache, disk, id)
    }

    ghost function File(id: Id): Option<Game>
      reads this
    {
      Copy(disk, id)
    }

    constructor ()
      ensures Valid() && cache == disk == map[] && dirty == {}
    {
      cache, dirty, disk := map[], {}, map[];
    }

    method LoadGame(id: Id) returns (result: Loaded)
      requires Valid()
      modifies this`cache
      ensures Valid() && result == At(id)
      ensures forall other :: At(other) == old(At(other)) && Held(other) == old(Held(other)) && File(other) == old(File(other))
    {
      if id in cache {
        return Present(Normalized(cache[id]));
      }
      if id !in disk {
        return Absent;
      }
      var g := disk[id];
      if g.schemaVersion < SCHEMA_VERSION_V3 {
        return Unreadable;
      }
      g := Normalized(g);
      cache := cache[id := g];
      result := Present(g);
    }

    method SaveGame(g: Game)
      requires Valid()
      modifies this
      ensures Valid() && dirty == old(dirty) - {g.id}
      ensures cache == old(cache)[g.id := g] && disk == old(disk)[g.id := g]
      ensures At(g.id) == Present(Normalized(g)) && Held(g.id) == File(g.id) == Some(g)
      ensures forall id :: id != g.id ==> At(id) == old(At(id)) && Held(id) == old(Held(id)) && File(id) == old(File(id))
    {
      disk := disk[g.id := g];
      cache := cache[g.id := g];
      dirty := dirty - {g.id};
    }

    method SaveGameInMemory(g: Game, forceSync: bool)
      requires Valid()
      modifies this
      ensures Valid() && cache == old(cache)[g.id := g]
      ensures disk == if forceSync then old(disk)[g.id := g] else old(disk)
      ensures dirty == if forceSync then old(dirty) - {g.id} else old(dirty) + {g.id}
      ensures At(g.id) == Present(Normalized(g)) && Held(g.id) == Some(g)
      ensures File(g.id) == if forceSync then Some(g) else old(File(g.id))
      ensures forall id :: id != g.id ==> At(id) == old(At(id)) && Held(id) == old(Held(id)) && File(id) == old(File(id))
    {
      cache := cache[g.id := g];
      dirty := dirty + {g.id};
      if forceSync {
        SaveGame(g);
        assert old(dirty) + {g.id} - {g.id} == old(dirty) - {g.id};
      }
    }

    /** File and cached copy at once; a dirty game stays marked. */
    method WriteThrough(g: Game)
      requires Valid()
      modifies this`disk, this`cache
      ensures Valid() && cache == old(cache)[g.id := g] && disk == old(disk)[g.id := g]
      ensures At(g.id) == Present(Normalized(g)) && Held(g.id) == File(g.id) == Some(g)
      ensures forall id :: id != g.id ==> At(id) == old(At(id)) && Held(id) == old(Held(id)) && File(id) == old(File(id))
    {
      disk := disk[g.id := g];
      cache := cache[g.id := g];
    }

    /** Deleting overwrites, in memory and on disk at once, with a tombstone that keeps the owner and loses everything
        else. */
    method DeleteGame(id: Id) returns (ok: bool)
      requires Valid()
      modifies this
      ensures Valid() && ok == !old(At(id)).Unreadable?
      ensures var before := old(At(id));
              if before.Present? then
                && At(id) == Present(Tombstone(id, before.game.details.ownerId))
                && Held(id) == File(id) == Some(Tombstone(id, before.game.details.ownerId))
              else At(id) == before && Held(id) == old(Held(id)) && File(id) == old(File(id))
      ensures old(At(id)).Present? ==> IsTombstone(At(id).game, id, old(At(id)).game.details.ownerId)
      ensures forall other :: other != id ==>
                At(other) == old(At(other)) && Held(other) == old(Held(other)) && File(other) == old(File(other))
    {
      var loaded := LoadGame(id);
      if !loaded.Present? {
        return loaded.Absent?;
      }
      var tombstone := Tombstone(id, loaded.game.details.ownerId);
      TombstoneIsNormalized(id, loaded.game.details.ownerId);
      hide LookUp, Newest, Copy, Tombstone, Normalized, IsTombstone;
      WriteThrough(tombstone);
      ok := true;
    }

    method Flush(id: Id)
      requires Valid()
      modifies this
      ensures Valid() && dirty == old(dirty) - {id} && cache == old(cache)
      ensures disk == if id in old(dirty) then old(disk)[id := cache[id]] else old(disk)
      ensures forall other :: At(other) == old(At(other)) && Held(other) == old(Held(other))
      ensures File(id) == Held(id) && forall other :: other != id ==> File(other) == old(File(other))
    {
      if id !in dirty {
        return;
      }
      SaveGame(cache[id]);
    }

    /** Loads answer as before, and now every file is the copy the store goes by. */
    method FlushAll()
      requires Valid()
      modifies this
      ensures Valid() && dirty == {} && cache == old(cache)
      ensures forall id :: At(id) == old(At(id)) && File(id) == Held(id) == old(Held(id))
    {
      var pending := dirty;
      while pending != {}
        invariant Valid() && pending == dirty && cache == old(cache)
        invariant forall id :: At(id) == old(At(id)) && Held(id) == old(Held(id))
        decreases pending
      {
        var id :| id in pending;
        Flush(id);
        pending := pending - {id};
      }
    }

    /** A process restart keeps the files and nothing else. */
    method Restart()
      requires Valid()
      modifies this
      ensures Valid() && disk == old(disk) && cache == map[] && dirty == {}
    {
      cache, dirty := map[], {};
    }

    /** The copies are those of the map, and none is refused. */
    ghost predicate Shows(m: map<Id, Game>)
      reads this
    {
      forall id :: Held(id) == Copy(m, id) && At(id) == LoadFrom(m, id)
    }

    method ServeOne(request: Request, ghost m: map<Id, Game>) returns (answer: Loaded)
      requires Valid() && Shows(m)
      modifies this
      ensures Valid() && Shows(Effect(m, request))
      ensures request.Load? ==> answer == LoadFrom(m, request.id)
    {
      hide LookUp, Newest;
      answer := Absent;
      match request {
        case Load(id) => answer := LoadGame(id);
        case Save(g) => SaveGame(g);
        case SaveInMemory(g, forceSync) => SaveGameInMemory(g, forceSync);
        case Delete(id) => var _ := DeleteGame(id);
        case FlushOne(id) => Flush(id);
        case FlushEverything => FlushAll();
      }
    }

    /** Whatever is asked, in whatever order: a load answers with the last game saved under the id, or its tombstone. */
    method Serve(requests: seq<Request>, ghost start: map<Id, Game>) returns (answers: seq<Loaded>)
      requires Valid() && Shows(start)
      modifies this
      ensures Valid() && Shows(Effects(start, requests)) && |answers| == |requests|
      ensures forall i :: 0 <= i < |requests| && requests[i].Load?
                ==> answers[i] == LoadFrom(Effects(start, requests[..i]), requests[i].id)
    {
      answers := [];
      for i := 0 to |requests|
        invariant Valid() && Shows(Effects(start, requests[..i])) && |answers| == i
        invariant forall j :: 0 <= j < i && requests[j].Load?
                    ==> answers[j] == LoadFrom(Effects(start, requests[..j]), requests[j].id)
      {
        assert requests[..i + 1][..i] == requests[..i];
        var answer := ServeOne(requests[i], Effects(start, requests[..i]));
        answers := answers + [answer];
      }
      assert requests[..|requests|] == requests;
    }
  }
}
