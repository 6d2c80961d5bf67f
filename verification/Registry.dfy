/** The registry (backend/registry.go): who may see which game and team, kept up to date over four index stores.
    The metadata caches are modelled as plain maps, and the global counts and time-to-live of tombstones are left out. */
module Registry {
  import opened Actions
  import opened Auth
  import opened AccessIndex
  import opened IndexStore

  class Registry {
    const users: IndexStore<UserId, UserIndex>
    const teamGames: IndexStore<Id, set<Id>>
    const gameUsers: IndexStore<Id, set<UserId>>
    const teamUsers: IndexStore<Id, set<UserId>>
    var gameMetadata: map<Id, Meta<Details>>
    var teamMetadata: map<Id, Meta<Team>>
    /** What was indexed so far. */
    ghost var world: World

    ghost predicate Stores()
      reads this, users, teamGames, gameUsers, teamUsers
    {
      && gameUsers != teamUsers
      && (users as object) != teamGames && (users as object) != gameUsers && (users as object) != teamUsers
      && (teamGames as object) != gameUsers && (teamGames as object) != teamUsers
      && users.Valid() && teamGames.Valid() && gameUsers.Valid() && teamUsers.Valid()
      && users.none == NO_INDEX && teamGames.none == {} && gameUsers.none == {} && teamUsers.none == {}
    }

    /** Every user's index is the direct-level function of the latest metadata, the inverse indices list exactly the
        users it mentions, and the links are those of the world. */
    ghost predicate Indexed()
      reads this, users, teamGames, gameUsers, teamUsers
    {
      && Stores()
      && (forall u :: users.At(u) == IndexOf(world.games, world.teams, u))
      && (forall g :: gameUsers.At(g) == GameUsers(world.games, g))
      && (forall t :: teamUsers.At(t) == TeamUsers(world.teams, t))
      && (forall t :: teamGames.At(t) == LinksOf(world.links, t))
    }

    ghost predicate Valid()
      reads this, users, teamGames, gameUsers, teamUsers
    {
      Indexed() && gameMetadata == world.games && teamMetadata == world.teams
    }

    /** A registry over four empty stores. */
    constructor (users: IndexStore<UserId, UserIndex>, teamGames: IndexStore<Id, set<Id>>,
                 gameUsers: IndexStore<Id, set<UserId>>, teamUsers: IndexStore<Id, set<UserId>>)
      requires gameUsers != teamUsers
      requires (users as object) != teamGames && (users as object) != gameUsers && (users as object) != teamUsers
      requires (teamGames as object) != gameUsers && (teamGames as object) != teamUsers
      requires users.Empty(NO_INDEX) && teamGames.Empty({}) && gameUsers.Empty({}) && teamUsers.Empty({})
      ensures Valid() && world == World(map[], map[], map[])
      ensures this.users == users && this.teamGames == teamGames && this.gameUsers == gameUsers && this.teamUsers == teamUsers
    {
      this.users, this.teamGames, this.gameUsers, this.teamUsers := users, teamGames, gameUsers, teamUsers;
      gameMetadata, teamMetadata, world := map[], map[], World(map[], map[], map[]);
      new;
      hide IndexOf, IndexStore.Valid, IndexStore.At;
      forall u
        ensures IndexOf(map[], map[], u) == NO_INDEX
      {
        NothingIsIndexed(u);
      }
    }

    method UpdateUserGameAccess(u: UserId, g: Id, level: Access)
      requires Stores()
      modifies users
      ensures Stores()
      ensures users.At(u) == old(users.At(u)).(games := Put(old(users.At(u)).games, g, level))
      ensures forall x :: x != u ==> users.At(x) == old(users.At(x))
    {
      hide IndexStore.Valid, IndexStore.At;
      var index := users.Get(u);
      if level.NoAccess? {
        if g in index.games {
          users.Set(u, index.(games := index.games - {g}));
        }
      } else if g !in index.games || index.games[g] != level {
        users.Set(u, index.(games := index.games[g := level]));
      }
    }

    method UpdateUserTeamAccess(u: UserId, t: Id, level: Access)
      requires Stores()
      modifies users
      ensures Stores()
      ensures users.At(u) == old(users.At(u)).(teams := Put(old(users.At(u)).teams, t, level))
      ensures forall x :: x != u ==> users.At(x) == old(users.At(x))
    {
      hide IndexStore.Valid, IndexStore.At;
      var index := users.Get(u);
      if level.NoAccess? {
        if t in index.teams {
          users.Set(u, index.(teams := index.teams - {t}));
        }
      } else if t !in index.teams || index.teams[t] != level {
        users.Set(u, index.(teams := index.teams[t := level]));
      }
    }

    /** The level of `g` for each of these users, in any order. */
    method UpdateGameUsers(these: set<UserId>, g: Id, level: UserId -> Access)
      requires Stores()
      modifies users
      ensures Stores()
      ensures forall u :: users.At(u) == if u in these then old(users.At(u)).(games := Put(old(users.At(u)).games, g, level(u)))
                                         else old(users.At(u))
    {
      hide IndexStore.Valid, IndexStore.At;
      var rest := these;
      while rest != {}
        invariant Stores() && rest <= these
        invariant forall u :: users.At(u) == if u in these && u !in rest
                                then old(users.At(u)).(games := Put(old(users.At(u)).games, g, level(u)))
                                else old(users.At(u))
        decreases rest
      {
        var u :| u in rest;
        UpdateUserGameAccess(u, g, level(u));
        rest := rest - {u};
      }
    }

    method UpdateTeamUsers(these: set<UserId>, t: Id, level: UserId -> Access)
      requires Stores()
      modifies users
      ensures Stores()
      ensures forall u :: users.At(u) == if u in these then old(users.At(u)).(teams := Put(old(users.At(u)).teams, t, level(u)))
                                         else old(users.At(u))
    {
      hide IndexStore.Valid, IndexStore.At;
      var rest := these;
      while rest != {}
        invariant Stores() && rest <= these
        invariant forall u :: users.At(u) == if u in these && u !in rest
                                then old(users.At(u)).(teams := Put(old(users.At(u)).teams, t, level(u)))
                                else old(users.At(u))
        decreases rest
      {
        var u :| u in rest;
        UpdateUserTeamAccess(u, t, level(u));
        rest := rest - {u};
      }
    }

    method AddTeamGame(t: Id, g: Id)
      requires Stores()
      modifies teamGames
      ensures Stores()
      ensures forall x :: teamGames.At(x) == if x == t && t != NoId then old(teamGames.At(x)) + {g} else old(teamGames.At(x))
    {
      if t == NoId {
        return;
      }
      var games := teamGames.Get(t);
      if g !in games {
        teamGames.Set(t, games + {g});
      }
    }

    /** A deleted game: everyone it mentioned loses the entry. */
    method ForgetGame(g: Id)
      requires Indexed()
      modifies users, gameUsers
      ensures Stores()
      ensures forall u :: users.At(u) == IndexOf(world.games[g := Gone], world.teams, u)
      ensures forall x :: gameUsers.At(x) == GameUsers(world.games[g := Gone], x)
    {
      hide IndexOf, IndexStore.Valid, IndexStore.At;
      var before := gameUsers.Get(g);
      UpdateGameUsers(before, g, _ => NoAccess);
      gameUsers.Delete(g);
      forall u
        ensures users.At(u) == IndexOf(world.games[g := Gone], world.teams, u)
      {
        NewGameReaches(world.games, world.teams, g, Gone, u);
      }
    }

    /** A live game: whoever it mentions gets the level it gives, whoever it no longer mentions loses the entry. */
    method MentionUsers(g: Id, d: Details)
      requires Indexed()
      modifies users, gameUsers
      ensures Stores()
      ensures forall u :: users.At(u) == IndexOf(world.games[g := Live(d)], world.teams, u)
      ensures forall x :: gameUsers.At(x) == GameUsers(world.games[g := Live(d)], x)
    {
      hide IndexOf, IndexStore.Valid, IndexStore.At, GetGameLevel, Mentioned;
      var now := Mentioned(d);
      var before := gameUsers.Get(g);
      UpdateGameUsers(before - now, g, _ => NoAccess);
      UpdateGameUsers(now, g, u => GetGameLevel(d, u));
      if before != now {
        gameUsers.Set(g, now);
      }
      forall u
        ensures users.At(u) == IndexOf(world.games[g := Live(d)], world.teams, u)
      {
        NewGameReaches(world.games, world.teams, g, Live(d), u);
      }
    }

    method LinkTeams(g: Id, d: Details)
      requires Stores() && forall t :: teamGames.At(t) == LinksOf(world.links, t)
      modifies teamGames
      ensures Stores()
      ensures forall t :: teamGames.At(t) == LinksOf(AddLink(AddLink(world.links, d.awayTeamId, g), d.homeTeamId, g), t)
    {
      hide IndexOf, IndexStore.Valid, IndexStore.At, GameUsers, TeamUsers;
      AddTeamGame(d.awayTeamId, g);
      AddTeamGame(d.homeTeamId, g);
    }

    /** UpdateGame. */
    method IndexGame(g: Id, meta: Meta<Details>)
      requires Valid()
      modifies this`gameMetadata, this`world, users, gameUsers, teamGames
      ensures Valid() && world == Step(old(world), GameEvent(g, meta))
    {
      hide IndexOf, IndexStore.Valid, IndexStore.At, GameUsers, TeamUsers, LinksOf, AddLink;
      gameMetadata := gameMetadata[g := meta];
      match meta {
        case Gone =>
          ForgetGame(g);
        case Live(d) =>
          MentionUsers(g, d);
          LinkTeams(g, d);
      }
      world := Step(world, GameEvent(g, meta));
    }

    method DeleteGame(g: Id)
      requires Valid()
      modifies this`gameMetadata, this`world, users, gameUsers
      ensures Valid() && world == Step(old(world), GameEvent(g, Gone))
    {
      hide IndexOf, IndexStore.Valid, IndexStore.At, GameUsers, TeamUsers, LinksOf, AddLink;
      if g !in gameMetadata || gameMetadata[g].Live? {
        gameMetadata := gameMetadata[g := Gone];
      }
      ForgetGame(g);
      world := Step(world, GameEvent(g, Gone));
    }

    method ForgetTeam(t: Id)
      requires Indexed()
      modifies users, teamUsers, teamGames
      ensures Stores()
      ensures forall u :: users.At(u) == IndexOf(world.games, world.teams[t := Gone], u)
      ensures forall x :: teamUsers.At(x) == TeamUsers(world.teams[t := Gone], x)
      ensures forall x :: teamGames.At(x) == LinksOf(world.links - {t}, x)
    {
      hide IndexOf, IndexStore.Valid, IndexStore.At;
      var before := teamUsers.Get(t);
      UpdateTeamUsers(before, t, _ => NoAccess);
      teamUsers.Delete(t);
      teamGames.Delete(t);
      forall u
        ensures users.At(u) == IndexOf(world.games, world.teams[t := Gone], u)
      {
        NewTeamReaches(world.games, world.teams, t, Gone, u);
      }
    }

    method EnrolMembers(t: Id, team: Team)
      requires Indexed()
      modifies users, teamUsers
      ensures Stores()
      ensures forall u :: users.At(u) == IndexOf(world.games, world.teams[t := Live(team)], u)
      ensures forall x :: teamUsers.At(x) == TeamUsers(world.teams[t := Live(team)], x)
    {
      hide IndexOf, IndexStore.Valid, IndexStore.At, GetTeamLevel, Members;
      var now := Members(team);
      var before := teamUsers.Get(t);
      UpdateTeamUsers(before - now, t, _ => NoAccess);
      UpdateTeamUsers(now, t, u => GetTeamLevel(team, u));
      if before != now {
        teamUsers.Set(t, now);
      }
      forall u
        ensures users.At(u) == IndexOf(world.games, world.teams[t := Live(team)], u)
      {
        NewTeamReaches(world.games, world.teams, t, Live(team), u);
        OutsidersHaveNoEntry(world.games, world.teams[t := Live(team)], t, u);
      }
    }

    /** UpdateTeam. */
    method IndexTeam(t: Id, meta: Meta<Team>)
      requires Valid()
      modifies this`teamMetadata, this`world, users, teamUsers, teamGames
      ensures Valid() && world == Step(old(world), TeamEvent(t, meta))
    {
      hide IndexOf, IndexStore.Valid, IndexStore.At, GameUsers, TeamUsers, LinksOf, AddLink;
      teamMetadata := teamMetadata[t := meta];
      match meta {
        case Gone =>
          ForgetTeam(t);
        case Live(team) =>
          EnrolMembers(t, team);
      }
      world := Step(world, TeamEvent(t, meta));
    }

    method DeleteTeam(t: Id)
      requires Valid()
      modifies this`teamMetadata, this`world, users, teamUsers, teamGames
      ensures Valid() && world == Step(old(world), TeamEvent(t, Gone))
    {
      hide IndexOf, IndexStore.Valid, IndexStore.At, GameUsers, TeamUsers, LinksOf, AddLink;
      if t !in teamMetadata || teamMetadata[t].Live? {
        teamMetadata := teamMetadata[t := Gone];
      }
      ForgetTeam(t);
      world := Step(world, TeamEvent(t, Gone));
    }

    /** A run of updates. A deletion comes as a saved tombstone or as a delete, whichever it is. */
    method Serve(events: seq<Event>)
      requires Valid()
      modifies this`gameMetadata, this`teamMetadata, this`world, users, gameUsers, teamUsers, teamGames
      ensures Valid() && world == Run(old(world), events)
      decreases |events|
    {
      hide Indexed;
      if events == [] {
        return;
      }
      var viaDelete: bool := *;
      match events[0] {
        case GameEvent(g, meta) =>
          if meta.Gone? && viaDelete {
            DeleteGame(g);
          } else {
            IndexGame(g, meta);
          }
        case TeamEvent(t, meta) =>
          if meta.Gone? && viaDelete {
            DeleteTeam(t);
          } else {
            IndexTeam(t, meta);
          }
      }
      Serve(events[1..]);
    }

    method RebuildTeams(teams: map<Id, Meta<Team>>)
      requires Valid()
      modifies this`teamMetadata, this`world, users, teamUsers, teamGames
      ensures Valid() && world.teams == old(world.teams) + teams && world.games == old(world.games)
    {
      hide IndexOf, Indexed, LinksOf, AddLink;
      var rest := teams.Keys;
      while rest != {}
        invariant Valid() && rest <= teams.Keys && world.games == old(world.games)
        invariant forall t :: t in world.teams <==> t in old(world.teams) || (t in teams && t !in rest)
        invariant forall t :: t in world.teams ==> world.teams[t] == if t in teams && t !in rest then teams[t] else old(world.teams)[t]
        decreases rest
      {
        var t :| t in rest;
        IndexTeam(t, teams[t]);
        rest := rest - {t};
      }
    }

    method RebuildGames(games: map<Id, Meta<Details>>)
      requires Valid()
      modifies this`gameMetadata, this`world, users, gameUsers, teamGames
      ensures Valid() && world.games == old(world.games) + games && world.teams == old(world.teams)
      ensures forall g, t :: g in games && Names(world, g, t) ==> g in LinksOf(world.links, t)
    {
      hide IndexOf, Indexed, LinksOf, AddLink;
      var rest := games.Keys;
      while rest != {}
        invariant Valid() && rest <= games.Keys && world.teams == old(world.teams)
        invariant forall g :: g in world.games <==> g in old(world.games) || (g in games && g !in rest)
        invariant forall g :: g in world.games ==> world.games[g] == if g in games && g !in rest then games[g] else old(world.games)[g]
        invariant forall g, t :: g in games && g !in rest && Names(world, g, t) ==> g in LinksOf(world.links, t)
        decreases rest
      {
        var g :| g in rest;
        ghost var before := world;
        IndexGame(g, games[g]);
        rest := rest - {g};
        forall x, t | x in games && x !in rest && Names(world, x, t)
          ensures x in LinksOf(world.links, t)
        {
          SavingAGameLinksIt(before, g, games[g], x, t);
        }
      }
    }

    /** Indexing everything the stores list again, teams first. The indices are the same function of what was known and
        what is listed: what the stores no longer list stays indexed. Every link that a listed game needs is there, lost
        ones included. */
    method Rebuild(teams: map<Id, Meta<Team>>, games: map<Id, Meta<Details>>)
      requires Valid()
      modifies this`gameMetadata, this`teamMetadata, this`world, users, gameUsers, teamUsers, teamGames
      ensures Valid() && world.teams == old(world.teams) + teams && world.games == old(world.games) + games
      ensures forall u :: users.At(u) == IndexOf(old(world.games) + games, old(world.teams) + teams, u)
      ensures old(world.teams) == teams && old(world.games) == games ==> forall u :: users.At(u) == old(users.At(u))
      ensures forall g, t :: g in games && Names(world, g, t) ==> g in LinksOf(world.links, t)
      ensures old(world.games).Keys <= games.Keys ==> Linked(world)
    {
      hide IndexOf, IndexStore.Valid, IndexStore.At, GameUsers, TeamUsers, LinksOf;
      RebuildTeams(teams);
      RebuildGames(games);
      assert old(world.teams) == teams ==> old(world.teams) + teams == teams;
      assert old(world.games) == games ==> old(world.games) + games == games;
      FlushAll();
    }

    method FlushAll()
      requires Valid()
      modifies users, teamGames, gameUsers, teamUsers
      ensures Valid()
      ensures users.dirty == {} && teamGames.dirty == {} && gameUsers.dirty == {} && teamUsers.dirty == {}
    {
      hide IndexOf, IndexStore.Valid, IndexStore.At, GameUsers, TeamUsers, LinksOf, AddLink;
      users.FlushAll();
      teamGames.FlushAll();
      gameUsers.FlushAll();
      teamUsers.FlushAll();
    }

    method ReadUser(u: UserId) returns (index: UserIndex)
      requires Valid()
      modifies users
      ensures Valid() && index == IndexOf(world.games, world.teams, u)
    {
      hide IndexOf, IndexStore.Valid, IndexStore.At, GameUsers, TeamUsers, LinksOf;
      index := users.Get(u);
    }

    method ReadLinks(t: Id) returns (games: set<Id>)
      requires Valid()
      modifies teamGames
      ensures Valid() && games == LinksOf(world.links, t)
    {
      hide IndexOf, IndexStore.Valid, IndexStore.At, GameUsers, TeamUsers, LinksOf;
      games := teamGames.Get(t);
    }

    method HasGameAccess(u: UserId, g: Id) returns (ok: bool)
      requires Valid()
      modifies users, teamGames
      ensures Valid() && (ok <==> Grants(world, u, g, Read))
      ensures g in world.games && world.games[g].Gone? ==> !ok
    {
      hide IndexOf, Indexed, LinksOf, GameLevel, TeamLevel;
      if g in gameMetadata && gameMetadata[g].Gone? {
        return false;
      }
      var index := ReadUser(u);
      LevelsAreEntries(world, u, g);
      if AtLeast(Entry(index.games, g), Read) {
        return true;
      }
      var rest := index.teams.Keys;
      while rest != {}
        invariant Valid() && rest <= index.teams.Keys
        invariant forall t :: t in index.teams && t !in rest ==> g !in LinksOf(world.links, t)
        decreases rest
      {
        var t :| t in rest;
        var linked := ReadLinks(t);
        if g in linked {
          LevelsAreEntries(world, u, t);
          assert ThroughTeam(world, u, g, t, Read);
          return true;
        }
        rest := rest - {t};
      }
      forall t
        ensures !ThroughTeam(world, u, g, t, Read)
      {
        LevelsAreEntries(world, u, t);
      }
      var public := ReadUser(Anyone);
      LevelsAreEntries(world, Anyone, g);
      ok := AtLeast(Entry(public.games, g), Read);
    }

    method HasTeamAccess(u: UserId, t: Id) returns (ok: bool)
      requires Valid()
      modifies users
      ensures Valid() && (ok <==> AtLeast(TeamLevel(world.teams, t, u), Read))
    {
      hide IndexOf, Indexed, TeamLevel;
      var index := ReadUser(u);
      LevelsAreEntries(world, u, t);
      ok := AtLeast(Entry(index.teams, t), Read);
    }

    /** The level is the strongest the indices grant. */
    method GetAccessLevel(u: UserId, g: Id) returns (level: Access)
      requires Valid()
      modifies users, teamGames
      ensures Valid()
      ensures forall need: Access :: !need.NoAccess? ==> (AtLeast(level, need) <==> Grants(world, u, g, need))
      ensures g in world.games && world.games[g].Gone? ==> level == NoAccess
    {
      hide IndexOf, Indexed, LinksOf, GameLevel, TeamLevel;
      if g in gameMetadata && gameMetadata[g].Gone? {
        return NoAccess;
      }
      var index := ReadUser(u);
      LevelsAreEntries(world, u, g);
      level := Entry(index.games, g);
      var rest := index.teams.Keys;
      while rest != {}
        invariant Valid() && rest <= index.teams.Keys
        invariant forall need: Access :: !need.NoAccess? ==> (AtLeast(level, need) <==> Sofar(world, u, g, index.teams.Keys - rest, need))
        decreases rest
      {
        var t :| t in rest;
        var linked := ReadLinks(t);
        LevelsAreEntries(world, u, t);
        SofarGrows(world, u, g, index.teams.Keys - rest, t);
        assert index.teams.Keys - (rest - {t}) == index.teams.Keys - rest + {t};
        if g in linked {
          level := Stronger(level, index.teams[t]);
        }
        rest := rest - {t};
      }
      assert index.teams.Keys - rest == index.teams.Keys;
      forall t
        ensures AtLeast(TeamLevel(world.teams, t, u), Read) ==> t in index.teams
      {
        LevelsAreEntries(world, u, t);
      }
      SofarIsOwn(world, u, g, index.teams.Keys);
      if level.NoAccess? {
        var public := ReadUser(Anyone);
        LevelsAreEntries(world, Anyone, g);
        level := Entry(public.games, g);
      }
    }
  }
}
