/** Who may do what with a game or a team (backend/auth.go). Ids are already normalized. */
module Auth {
  import opened Wrappers
  import opened Actions

  datatype Access = NoAccess | Read | Write | Admin

  function AtLeast(have: Access, need: Access): bool {
    match need
    case NoAccess => true
    case Read => !have.NoAccess?
    case Write => have.Write? || have.Admin?
    case Admin => have.Admin?
  }

  datatype Team = Team(ownerId: UserId, admins: seq<UserId>, scorekeepers: seq<UserId>, spectators: seq<UserId>)

  /** The role lists of a team, strongest first. The owner of a team is in none of them. */
  function RoleIn(team: Team, user: UserId): Access {
    if user in team.admins then Admin
    else if user in team.scorekeepers then Write
    else if user in team.spectators then Read
    else NoAccess
  }

  function Stronger(a: Access, b: Access): Access {
    if AtLeast(a, b) then a else b
  }

  /** A team that cannot be loaded, or was deleted, gives nothing. */
  function TeamGrant(teams: map<Id, Team>, teamId: Id, user: UserId): Access {
    if teamId == NoId || teamId !in teams then NoAccess else RoleIn(teams[teamId], user)
  }

  /** The authoritative access of a user to a game. */
  function GetGameAccess(user: UserId, game: Details, teams: map<Id, Team>): Access {
    var permissions := game.permissions;
    if user != Anyone && game.ownerId == user then Admin
    else if user != Anyone && user in permissions.users && permissions.users[user].WriteRole? then Write
    else if user != Anyone && user in permissions.users && permissions.users[user].ReadRole? then Read
    else
      var away := if user == Anyone then NoAccess else TeamGrant(teams, game.awayTeamId, user);
      var level := if user == Anyone || away.Admin? then away else Stronger(away, TeamGrant(teams, game.homeTeamId, user));
      if !level.NoAccess? then level
      else if permissions.public == Some(ReadRole) then Read
      else NoAccess
  }

  function GetTeamAccess(user: UserId, team: Team): Access {
    if user == Anyone then NoAccess else if team.ownerId == user then Admin else RoleIn(team, user)
  }

  // ---- Who has which level ----

  /** The strongest list of the team that names the user decides; the owner stands above the lists. */
  lemma TeamLevelIff(user: UserId, team: Team)
    ensures GetTeamAccess(Anyone, team) == NoAccess
    ensures user != Anyone ==>
              var level, admin := GetTeamAccess(user, team), user == team.ownerId || user in team.admins;
              && (level == Admin <==> admin)
              && (level == Write <==> !admin && user in team.scorekeepers)
              && (level == Read <==> !admin && user !in team.scorekeepers && user in team.spectators)
  {
  }

  /** One of the two teams of a game that can be loaded. */
  predicate Plays(game: Details, teams: map<Id, Team>, t: Id) {
    t != NoId && (t == game.awayTeamId || t == game.homeTeamId) && t in teams
  }

  ghost predicate TeamAdmin(user: UserId, game: Details, teams: map<Id, Team>) {
    exists t :: Plays(game, teams, t) && user in teams[t].admins
  }

  ghost predicate TeamKeeper(user: UserId, game: Details, teams: map<Id, Team>) {
    exists t :: Plays(game, teams, t) && user in teams[t].scorekeepers
  }

  ghost predicate TeamSpectator(user: UserId, game: Details, teams: map<Id, Team>) {
    exists t :: Plays(game, teams, t) && user in teams[t].spectators
  }

  /** The role the game itself gives the user, as far as it is understood. */
  predicate HasRole(user: UserId, game: Details, role: Role) {
    user in game.permissions.users && game.permissions.users[user] == role
  }

  /** The level of a user on a game: the owner has all; else the game's own role "write" or "read" decides; else the
      strongest list of the two teams that names the user; else the public role "read". */
  lemma GameLevelIff(user: UserId, game: Details, teams: map<Id, Team>)
    requires user != Anyone
    ensures var level, own := GetGameAccess(user, game, teams), user == game.ownerId;
      var asWriter, asReader := HasRole(user, game, WriteRole), HasRole(user, game, ReadRole);
      var inherits := !own && !asWriter && !asReader;
      var admin, keeper := TeamAdmin(user, game, teams), TeamKeeper(user, game, teams);
      && (level == Admin <==> own || (inherits && admin))
      && (level == Write <==> (!own && asWriter) || (inherits && !admin && keeper))
      && var last := TeamSpectator(user, game, teams) || game.permissions.public == Some(ReadRole);
         (level == Read <==> (!own && asReader) || (inherits && !admin && !keeper && last))
  {
    var away, home := game.awayTeamId, game.homeTeamId;
    assert Plays(game, teams, away) <==> away != NoId && away in teams;
    assert Plays(game, teams, home) <==> home != NoId && home in teams;
  }

  /** Someone who is not logged in only ever reads, and only a game whose public role is "read". */
  lemma AnyoneReadsIff(game: Details, teams: map<Id, Team>)
    ensures GetGameAccess(Anyone, game, teams) == if game.permissions.public == Some(ReadRole) then Read else NoAccess
  {
  }

  /** Some rule of the documentation gives the user this level: ownership, a role on the game, a list of one of its
      teams, the public role. */
  ghost predicate SomeRuleGives(user: UserId, game: Details, teams: map<Id, Team>, need: Access) {
    || (user != Anyone && (user == game.ownerId || TeamAdmin(user, game, teams)))
    || (user != Anyone && !need.Admin? && (HasRole(user, game, WriteRole) || TeamKeeper(user, game, teams)))
    || (user != Anyone && need.Read? && (HasRole(user, game, ReadRole) || TeamSpectator(user, game, teams)))
    || (need.Read? && game.permissions.public == Some(ReadRole))
  }

  /** A role on the game that is weaker than what a team gives. */
  ghost predicate RoleHidesTeam(user: UserId, game: Details, teams: map<Id, Team>) {
    && user != Anyone && user != game.ownerId
    && (|| (HasRole(user, game, WriteRole) && TeamAdmin(user, game, teams))
        || (HasRole(user, game, ReadRole) && (TeamAdmin(user, game, teams) || TeamKeeper(user, game, teams))))
  }

  /** The documentation gives a user the highest level of any rule. The code never gives more, and gives just that exactly
      unless a role on the game hides a stronger one of a team. */
  lemma AccessIsTheHighestIff(user: UserId, game: Details, teams: map<Id, Team>)
    ensures forall need: Access :: !need.NoAccess? && AtLeast(GetGameAccess(user, game, teams), need) ==>
              SomeRuleGives(user, game, teams, need)
    ensures (forall need: Access :: !need.NoAccess? ==>
               (AtLeast(GetGameAccess(user, game, teams), need) <==> SomeRuleGives(user, game, teams, need)))
       <==> !RoleHidesTeam(user, game, teams)
  {
    hide GetGameAccess, TeamAdmin, TeamKeeper, TeamSpectator;
    var level := GetGameAccess(user, game, teams);
    AnyoneReadsIff(game, teams);
    if user != Anyone {
      GameLevelIff(user, game, teams);
    }
    if RoleHidesTeam(user, game, teams) {
      assert !AtLeast(level, if TeamAdmin(user, game, teams) then Admin else Write);
      assert SomeRuleGives(user, game, teams, if TeamAdmin(user, game, teams) then Admin else Write);
    }
  }

  function WithRole(game: Details, user: UserId, role: Role): Details {
    game.(permissions := game.permissions.(users := game.permissions.users[user := role]))
  }

  /** Giving a user a role on a game can take access away, since the role hides the teams: "write" exactly from an admin
      of a team, "read" exactly from an admin or a scorekeeper. */
  lemma RoleLowersIff(user: UserId, game: Details, teams: map<Id, Team>, role: Role)
    requires user != Anyone && user != game.ownerId && user !in game.permissions.users
    requires role == WriteRole || role == ReadRole
    ensures !AtLeast(GetGameAccess(user, WithRole(game, user, role), teams), GetGameAccess(user, game, teams))
       <==> TeamAdmin(user, game, teams) || (role == ReadRole && TeamKeeper(user, game, teams))
  {
    hide GetGameAccess;
    GameLevelIff(user, game, teams);
    GameLevelIff(user, WithRole(game, user, role), teams);
  }
}
