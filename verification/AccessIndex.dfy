/** What the access indices of backend/registry.go should hold, as a function of the latest metadata, and how that
    compares with the authority, GetGameAccess. User ids are normalized. */
module AccessIndex {
  import opened Actions
  import opened Auth
  import opened Wrappers

  /** The latest metadata of a game or a team; a deleted one leaves a tombstone. */
  datatype Meta<T> = Live(value: T) | Gone

  datatype UserIndex = UserIndex(games: map<Id, Access>, teams: map<Id, Access>)

  const NO_INDEX := UserIndex(map[], map[])

  /** The users a game names, "anyone" among them once a public role is set. */
  function Mentioned(d: Details): set<UserId> {
    {d.ownerId} + d.permissions.users.Keys + (if d.permissions.public.Some? then {Anyone} else {})
  }

  function GetGameLevel(d: Details, u: UserId): Access {
    if u == d.ownerId then Admin
    else if u in d.permissions.users && !d.permissions.users[u].OtherRole? then
      match d.permissions.users[u]
      case AdminRole => Admin
      case WriteRole => Write
      case _ => Read
    else
      match d.permissions.public
      case Some(WriteRole) => Write
      case Some(ReadRole) => Read
      case _ => NoAccess
  }

  function DirectLevel(d: Details, u: UserId): Access {
    if u in Mentioned(d) then GetGameLevel(d, u) else NoAccess
  }

  function Members(team: Team): set<UserId> {
    {team.ownerId} + (set u | u in team.admins) + (set u | u in team.scorekeepers) + (set u | u in team.spectators)
  }

  function GetTeamLevel(team: Team, u: UserId): Access {
    if u == team.ownerId then Admin else RoleIn(team, u)
  }

  function GameLevel(games: map<Id, Meta<Details>>, g: Id, u: UserId): Access {
    if g in games && games[g].Live? then DirectLevel(games[g].value, u) else NoAccess
  }

  function TeamLevel(teams: map<Id, Meta<Team>>, t: Id, u: UserId): Access {
    if t in teams && teams[t].Live? then GetTeamLevel(teams[t].value, u) else NoAccess
  }

  function GameUsers(games: map<Id, Meta<Details>>, g: Id): set<UserId> {
    if g in games && games[g].Live? then Mentioned(games[g].value) else {}
  }

  function TeamUsers(teams: map<Id, Meta<Team>>, t: Id): set<UserId> {
    if t in teams && teams[t].Live? then Members(teams[t].value) else {}
  }

  /** A user's index: the direct level on every game and team that gives one. */
  ghost function IndexOf(games: map<Id, Meta<Details>>, teams: map<Id, Meta<Team>>, u: UserId): UserIndex {
    UserIndex(map g | g in games && !GameLevel(games, g, u).NoAccess? :: GameLevel(games, g, u),
              map t | t in teams && !TeamLevel(teams, t, u).NoAccess? :: TeamLevel(teams, t, u))
  }

  lemma NothingIsIndexed(u: UserId)
    ensures IndexOf(map[], map[], u) == NO_INDEX
  {
    assert IndexOf(map[], map[], u).games == map[] && IndexOf(map[], map[], u).teams == map[];
  }

  function Entry(m: map<Id, Access>, k: Id): Access {
    if k in m then m[k] else NoAccess
  }

  function Put(m: map<Id, Access>, k: Id, level: Access): map<Id, Access> {
    if level.NoAccess? then m - {k} else m[k := level]
  }

  /** Setting one entry to the new level is all that new metadata asks of a user's index. */
  lemma PutIsNewGame(games: map<Id, Meta<Details>>, teams: map<Id, Meta<Team>>, g: Id, meta: Meta<Details>, u: UserId)
    ensures IndexOf(games[g := meta], teams, u)
         == IndexOf(games, teams, u).(games := Put(IndexOf(games, teams, u).games, g, GameLevel(games[g := meta], g, u)))
  {
    var now := games[g := meta];
    assert IndexOf(now, teams, u).games == Put(IndexOf(games, teams, u).games, g, GameLevel(now, g, u)) by {
      forall other | other != g
        ensures GameLevel(now, other, u) == GameLevel(games, other, u)
      {
      }
    }
  }

  lemma PutIsNewTeam(games: map<Id, Meta<Details>>, teams: map<Id, Meta<Team>>, t: Id, meta: Meta<Team>, u: UserId)
    ensures IndexOf(games, teams[t := meta], u)
         == IndexOf(games, teams, u).(teams := Put(IndexOf(games, teams, u).teams, t, TeamLevel(teams[t := meta], t, u)))
  {
    var now := teams[t := meta];
    assert IndexOf(games, now, u).teams == Put(IndexOf(games, teams, u).teams, t, TeamLevel(now, t, u)) by {
      forall other | other != t
        ensures TeamLevel(now, other, u) == TeamLevel(teams, other, u)
      {
      }
    }
  }

  /** Nobody outside the inverse index has an entry to clear. */
  lemma OutsidersHaveNoEntry(games: map<Id, Meta<Details>>, teams: map<Id, Meta<Team>>, k: Id, u: UserId)
    ensures u !in GameUsers(games, k) ==> GameLevel(games, k, u) == NoAccess && k !in IndexOf(games, teams, u).games
    ensures u !in TeamUsers(teams, k) ==> TeamLevel(teams, k, u) == NoAccess && k !in IndexOf(games, teams, u).teams
  {
  }

  /** Setting the entries of the users mentioned before or now brings every index up to date. */
  lemma NewGameReaches(games: map<Id, Meta<Details>>, teams: map<Id, Meta<Team>>, g: Id, meta: Meta<Details>, u: UserId)
    ensures var now := games[g := meta];
      IndexOf(now, teams, u) == if u in GameUsers(games, g) + GameUsers(now, g)
        then IndexOf(games, teams, u).(games := Put(IndexOf(games, teams, u).games, g, GameLevel(now, g, u)))
        else IndexOf(games, teams, u)
  {
    PutIsNewGame(games, teams, g, meta, u);
    OutsidersHaveNoEntry(games, teams, g, u);
    OutsidersHaveNoEntry(games[g := meta], teams, g, u);
    var m := IndexOf(games, teams, u).games;
    assert g !in m ==> m - {g} == m;
  }

  lemma NewTeamReaches(games: map<Id, Meta<Details>>, teams: map<Id, Meta<Team>>, t: Id, meta: Meta<Team>, u: UserId)
    ensures var now := teams[t := meta];
      IndexOf(games, now, u) == if u in TeamUsers(teams, t) + TeamUsers(now, t)
        then IndexOf(games, teams, u).(teams := Put(IndexOf(games, teams, u).teams, t, TeamLevel(now, t, u)))
        else IndexOf(games, teams, u)
  {
    PutIsNewTeam(games, teams, t, meta, u);
    OutsidersHaveNoEntry(games, teams, t, u);
    OutsidersHaveNoEntry(games, teams[t := meta], t, u);
    var m := IndexOf(games, teams, u).teams;
    assert t !in m ==> m - {t} == m;
  }

  /** The metadata last seen, and the games linked to each team. */
  datatype World = World(games: map<Id, Meta<Details>>, teams: map<Id, Meta<Team>>, links: map<Id, set<Id>>)

  datatype Event = GameEvent(g: Id, game: Meta<Details>) | TeamEvent(t: Id, team: Meta<Team>)

  function LinksOf(links: map<Id, set<Id>>, t: Id): set<Id> {
    if t in links then links[t] else {}
  }

  function AddLink(links: map<Id, set<Id>>, t: Id, g: Id): map<Id, set<Id>> {
    if t == NoId then links else links[t := LinksOf(links, t) + {g}]
  }

  function Step(w: World, e: Event): World {
    match e
    case GameEvent(g, Live(d)) =>
      w.(games := w.games[g := e.game], links := AddLink(AddLink(w.links, d.awayTeamId, g), d.homeTeamId, g))
    case GameEvent(g, Gone) => w.(games := w.games[g := e.game])
    case TeamEvent(t, Live(_)) => w.(teams := w.teams[t := e.team])
    case TeamEvent(t, Gone) => w.(teams := w.teams[t := e.team], links := w.links - {t})
  }

  function Run(w: World, events: seq<Event>): World
    decreases |events|
  {
    if events == [] then w else Run(Step(w, events[0]), events[1..])
  }

  predicate Names(w: World, g: Id, t: Id) {
    g in w.games && w.games[g].Live? && t != NoId && (t == w.games[g].value.awayTeamId || t == w.games[g].value.homeTeamId)
  }

  predicate Deleted(w: World, t: Id) {
    t in w.teams && w.teams[t].Gone?
  }

  /** Every live game is linked to the teams it names, deleted ones excepted. */
  ghost predicate Linked(w: World) {
    forall g, t :: Names(w, g, t) && !Deleted(w, t) ==> g in LinksOf(w.links, t)
  }

  predicate Revives(w: World, e: Event) {
    e.TeamEvent? && e.team.Live? && Deleted(w, e.t)
  }

  /** Saving a game links it to the teams it names, and drops no link. */
  lemma SavingAGameLinksIt(w: World, g: Id, meta: Meta<Details>, x: Id, t: Id)
    requires Names(Step(w, GameEvent(g, meta)), x, t)
    ensures x == g || x in LinksOf(w.links, t) ==> x in LinksOf(Step(w, GameEvent(g, meta)).links, t)
    ensures x != g ==> Names(w, x, t)
  {
  }

  /** Only saving a deleted team again can lose links, and it does so exactly when a live game still names that team
      and was not saved since the deletion. */
  lemma LinkedAfterIff(w: World, e: Event)
    requires Linked(w)
    ensures Linked(Step(w, e)) <==> !(Revives(w, e) && exists g :: Names(w, g, e.t) && g !in LinksOf(w.links, e.t))
  {
    var after := Step(w, e);
    if Revives(w, e) && exists g :: Names(w, g, e.t) && g !in LinksOf(w.links, e.t) {
      var g :| Names(w, g, e.t) && g !in LinksOf(w.links, e.t);
      assert Names(after, g, e.t) && !Deleted(after, e.t);
    } else {
      forall g, t | Names(after, g, t) && !Deleted(after, t)
        ensures g in LinksOf(after.links, t)
      {
        if e.GameEvent? {
          SavingAGameLinksIt(w, e.g, e.game, g, t);
        } else {
          assert Names(w, g, t);
        }
      }
    }
  }

  ghost predicate RevivesNone(w: World, events: seq<Event>)
    decreases |events|
  {
    events == [] || (!Revives(w, events[0]) && RevivesNone(Step(w, events[0]), events[1..]))
  }

  lemma {:induction false} LinkedAlways(w: World, events: seq<Event>)
    requires Linked(w) && RevivesNone(w, events)
    ensures Linked(Run(w, events))
    decreases |events|
  {
    if events != [] {
      LinkedAfterIff(w, events[0]);
      LinkedAlways(Step(w, events[0]), events[1..]);
    }
  }

  /** A linked team of the user reaches the game with a level of at least `need`. */
  ghost predicate ThroughTeam(w: World, u: UserId, g: Id, t: Id, need: Access) {
    g in LinksOf(w.links, t) && AtLeast(TeamLevel(w.teams, t, u), need)
  }

  lemma LevelsAreEntries(w: World, u: UserId, k: Id)
    ensures Entry(IndexOf(w.games, w.teams, u).games, k) == GameLevel(w.games, k, u)
    ensures Entry(IndexOf(w.games, w.teams, u).teams, k) == TeamLevel(w.teams, k, u)
    ensures k in IndexOf(w.games, w.teams, u).teams <==> AtLeast(TeamLevel(w.teams, k, u), Read)
  {
  }

  ghost predicate Own(w: World, u: UserId, g: Id, need: Access) {
    AtLeast(GameLevel(w.games, g, u), need) || exists t :: ThroughTeam(w, u, g, t, need)
  }

  /** The same from the direct entry and these teams alone. */
  ghost predicate Sofar(w: World, u: UserId, g: Id, teams: set<Id>, need: Access) {
    AtLeast(GameLevel(w.games, g, u), need) || exists t :: t in teams && ThroughTeam(w, u, g, t, need)
  }

  lemma SofarGrows(w: World, u: UserId, g: Id, teams: set<Id>, t: Id)
    ensures forall need :: Sofar(w, u, g, teams + {t}, need) <==> Sofar(w, u, g, teams, need) || ThroughTeam(w, u, g, t, need)
  {
  }

  lemma SofarIsOwn(w: World, u: UserId, g: Id, teams: set<Id>)
    requires forall t :: AtLeast(TeamLevel(w.teams, t, u), Read) ==> t in teams
    ensures forall need: Access :: !need.NoAccess? ==> (Sofar(w, u, g, teams, need) <==> Own(w, u, g, need))
  {
  }

  /** What the indices grant: the user's own entries, or failing those the public one. */
  ghost predicate Grants(w: World, u: UserId, g: Id, need: Access) {
    && !(g in w.games && w.games[g].Gone?)
    && (Own(w, u, g, need) || (!Own(w, u, g, Read) && AtLeast(GameLevel(w.games, g, Anyone), need)))
  }

  /** The live teams, as the authority loads them. */
  ghost function Rosters(w: World): map<Id, Team> {
    map t | t in w.teams && w.teams[t].Live? :: w.teams[t].value
  }

  ghost function Authority(w: World, u: UserId, g: Id): Access
    requires g in w.games && w.games[g].Live?
  {
    GetGameAccess(u, w.games[g].value, Rosters(w))
  }

  lemma TeamGrantIsIndexed(w: World, u: UserId, g: Id, t: Id, need: Access)
    requires Linked(w) && Names(w, g, t) && !need.NoAccess? && AtLeast(TeamGrant(Rosters(w), t, u), need)
    ensures Own(w, u, g, need)
  {
    assert ThroughTeam(w, u, g, t, need);
  }

  /** While the links are complete, no user is offered less by the indices than the authority grants, at any level. */
  lemma IndexNeverUnderstates(w: World, u: UserId, g: Id, need: Access)
    requires Linked(w) && u != Anyone && g in w.games && w.games[g].Live?
    requires !need.NoAccess? && AtLeast(Authority(w, u, g), need)
    ensures Grants(w, u, g, need)
  {
    var d := w.games[g].value;
    if !AtLeast(DirectLevel(d, u), need) {
      var away, home := TeamGrant(Rosters(w), d.awayTeamId, u), TeamGrant(Rosters(w), d.homeTeamId, u);
      if AtLeast(away, need) {
        TeamGrantIsIndexed(w, u, g, d.awayTeamId, need);
      } else if AtLeast(home, need) {
        TeamGrantIsIndexed(w, u, g, d.homeTeamId, need);
      }
    }
  }

  /** The same over every run in which no deleted team is saved again. */
  lemma IndexIsComplete(events: seq<Event>, u: UserId, g: Id, need: Access)
    requires RevivesNone(World(map[], map[], map[]), events)
    requires u != Anyone && !need.NoAccess?
    ensures var w := Run(World(map[], map[], map[]), events);
            (g in w.games && w.games[g].Live? && AtLeast(Authority(w, u, g), need)) ==> Grants(w, u, g, need)
  {
    var w := Run(World(map[], map[], map[]), events);
    LinkedAlways(World(map[], map[], map[]), events);
    if g in w.games && w.games[g].Live? && AtLeast(Authority(w, u, g), need) {
      IndexNeverUnderstates(w, u, g, need);
    }
  }

  /** Without that assumption a scorekeeper is shut out: team saved, game saved, team deleted, team saved again. */
  lemma RevivedTeamLosesItsGames(t: Id, g: Id, owner: UserId, u: UserId)
    requires t != NoId && owner != u && owner != Anyone && u != Anyone
    ensures
      var team := Live(Team(owner, [], [u], []));
      var game := Live(NO_DETAILS.(ownerId := owner, homeTeamId := t));
      var w := Run(World(map[], map[], map[]), [TeamEvent(t, team), GameEvent(g, game), TeamEvent(t, Gone), TeamEvent(t, team)]);
      g in w.games && w.games[g].Live? && Authority(w, u, g) == Write && !Grants(w, u, g, Read)
  {
    var team := Live(Team(owner, [], [u], []));
    var game := Live(NO_DETAILS.(ownerId := owner, homeTeamId := t));
    var w0 := World(map[], map[], map[]);
    var w1 := Step(w0, TeamEvent(t, team));
    var w2 := Step(w1, GameEvent(g, game));
    var w3 := Step(w2, TeamEvent(t, Gone));
    var w4 := Step(w3, TeamEvent(t, team));
    RunFour(w0, TeamEvent(t, team), GameEvent(g, game), TeamEvent(t, Gone), TeamEvent(t, team));
    assert forall x :: LinksOf(w4.links, x) == {};
    assert u in team.value.scorekeepers;
  }

  lemma RunFour(w: World, a: Event, b: Event, c: Event, d: Event)
    ensures Run(w, [a, b, c, d]) == Step(Step(Step(Step(w, a), b), c), d)
  {
    assert [a, b, c, d][1..] == [b, c, d] && [b, c, d][1..] == [c, d] && [c, d][1..] == [d];
    var w2 := Step(Step(w, a), b);
    assert Run(Step(w, a), [b, c, d]) == Run(w2, [c, d]);
    assert Run(w2, [c, d]) == Run(Step(w2, c), [d]) == Step(Step(w2, c), d);
  }

  /** A linked team that the authority does not ask: one the game no longer names, or one the user only owns. */
  ghost predicate Unasked(w: World, u: UserId, g: Id, t: Id) {
    && ThroughTeam(w, u, g, t, Read)
    && (!Names(w, g, t) || (w.teams[t].value.ownerId == u && RoleIn(w.teams[t].value, u).NoAccess?))
  }

  ghost predicate SomeUnasked(w: World, u: UserId, g: Id) {
    exists t :: Unasked(w, u, g, t)
  }

  /** A role that only the index understands. */
  predicate NamesAdmin(d: Details, u: UserId) {
    u in d.permissions.users && d.permissions.users[u].AdminRole?
  }

  /** A game open to anyone otherwise than by the public role "read". */
  predicate GivesAnyone(d: Details) {
    || d.ownerId == Anyone
    || (Anyone in d.permissions.users && !d.permissions.users[Anyone].OtherRole?)
    || d.permissions.public == Some(WriteRole)
  }

  /** The indices let in a user the authority refuses exactly when one of these holds: the game gives the user the role
      "admin", the game opens itself to anyone otherwise than by the public role "read", or an unasked team is linked. */
  lemma OvergrantsIff(w: World, u: UserId, g: Id)
    requires u != Anyone && g in w.games && w.games[g].Live? && Authority(w, u, g) == NoAccess
    ensures Grants(w, u, g, Read) <==> (NamesAdmin(w.games[g].value, u) || GivesAnyone(w.games[g].value) || SomeUnasked(w, u, g))
  {
    var d := w.games[g].value;
    forall t
      ensures ThroughTeam(w, u, g, t, Read) <==> Unasked(w, u, g, t)
    {
      if ThroughTeam(w, u, g, t, Read) && Names(w, g, t) {
        assert t in Rosters(w) && Rosters(w)[t] == w.teams[t].value;
        assert TeamGrant(Rosters(w), t, u) == NoAccess;
      }
    }
    assert GameLevel(w.games, g, Anyone) != NoAccess <==> GivesAnyone(d);
  }

  /** The level the index gives by name: the owner has all; else a role it understands decides, "admin" among them; else
      whoever is mentioned gets the public role. */
  lemma DirectLevelIff(d: Details, u: UserId)
    ensures var own, named := u == d.ownerId, u in d.permissions.users && !d.permissions.users[u].OtherRole?;
      var public := u in d.permissions.users || (u == Anyone && d.permissions.public.Some?);
      && (DirectLevel(d, u) == Admin <==> own || HasRole(u, d, AdminRole))
      && (DirectLevel(d, u) == Write <==>
            !own && (HasRole(u, d, WriteRole) || (!named && public && d.permissions.public == Some(WriteRole))))
      && (DirectLevel(d, u) == Read <==>
            !own && (HasRole(u, d, ReadRole) || (!named && public && d.permissions.public == Some(ReadRole))))
  {
  }

  /** The same at a given level: the linked team is not named, or the user owns it, or a role of the game hides it. */
  ghost predicate UnaskedAt(w: World, u: UserId, g: Id, t: Id, need: Access)
    requires g in w.games && w.games[g].Live? && !need.NoAccess?
  {
    var d := w.games[g].value;
    && ThroughTeam(w, u, g, t, need)
    && (!Names(w, g, t) || w.teams[t].value.ownerId == u || HasRole(u, d, WriteRole) || HasRole(u, d, ReadRole))
  }

  ghost predicate SomeUnaskedAt(w: World, u: UserId, g: Id, need: Access)
    requires g in w.games && w.games[g].Live? && !need.NoAccess?
  {
    exists t :: UnaskedAt(w, u, g, t, need)
  }

  /** What a game gives to anyone, the public role "read" aside. */
  predicate OpensAt(d: Details, need: Access) {
    || d.ownerId == Anyone
    || HasRole(Anyone, d, AdminRole)
    || (!need.Admin? && (HasRole(Anyone, d, WriteRole) || (d.permissions.public == Some(WriteRole)
                                                           && !HasRole(Anyone, d, ReadRole))))
    || (need.Read? && HasRole(Anyone, d, ReadRole))
  }

  /** The user has a role the game does not understand, which the index takes for the public role "write". */
  predicate PassesAsPublic(d: Details, u: UserId, need: Access) {
    HasRole(u, d, OtherRole) && d.permissions.public == Some(WriteRole) && !need.Admin?
  }

  /** How far the indices exceed the authority, at every level: a user below `need` is granted it exactly if the game
      names the user "admin", or gives a role that passes as the public one, or an unasked team reaches that level, or
      the user has no entry at all and the game opens itself to anyone at that level. */
  lemma ExceedsIff(w: World, u: UserId, g: Id, need: Access)
    requires u != Anyone && g in w.games && w.games[g].Live? && !need.NoAccess? && !AtLeast(Authority(w, u, g), need)
    ensures var d := w.games[g].value;
      Grants(w, u, g, need)
      <==> (NamesAdmin(d, u) || PassesAsPublic(d, u, need) || SomeUnaskedAt(w, u, g, need)
            || (!Own(w, u, g, Read) && OpensAt(d, need)))
  {
    var d := w.games[g].value;
    DirectLevelIff(d, u);
    DirectLevelIff(d, Anyone);
    forall t
      ensures ThroughTeam(w, u, g, t, need) <==> UnaskedAt(w, u, g, t, need)
    {
      if ThroughTeam(w, u, g, t, need) && Names(w, g, t) {
        assert t in Rosters(w) && Rosters(w)[t] == w.teams[t].value;
        assert TeamGrant(Rosters(w), t, u) == RoleIn(w.teams[t].value, u);
      }
    }
    assert AtLeast(GameLevel(w.games, g, Anyone), need) ==> OpensAt(d, need) || d.permissions.public == Some(ReadRole);
  }

  /** For teams the two sides coincide. */
  lemma TeamIndexIsTheAuthority(games: map<Id, Meta<Details>>, teams: map<Id, Meta<Team>>, t: Id, u: UserId)
    requires u != Anyone && t in teams && teams[t].Live?
    ensures Entry(IndexOf(games, teams, u).teams, t) == GetTeamAccess(u, teams[t].value)
  {
  }
}
