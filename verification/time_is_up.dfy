/** The Time's-Up game reducer (libs/time-s-up/src/lib/core/time-s-up.reducer.ts)
    over the game of libs/time-s-up/src/lib/core/time-s-up.interfaces.ts:
    a player is an id and a nickname, a team a name and the ids of its
    players. */
module TimeIsUp {
  import opened Results
  import opened Lists

  type PlayerId = string

  datatype Player = Player(id: PlayerId, nickname: string)

  datatype Team = Team(name: string, players: seq<PlayerId>)

  datatype Config = Config(teamSize: int, teams: seq<Team>, wordsToFind: seq<string>)

  /** `TimeIsUpGame`; `admin` is `null` until one is set. */
  datatype Game = Game(admin: Option<Player>, players: seq<Player>, config: Config)

  const InitialGame := Game(None, [], Config(2, [], []))

  /** SET_WORDS_TO_FIND is declared with the others but is not one of the
      reducer's cases: it falls through to the default branch. */
  datatype Action =
    | SetAdmin(admin: Player)
    | AddPlayer(player: Player)
    | RemovePlayer(playerId: PlayerId)
    | SetWordsToFind(words: seq<string>)

  /** `players.filter(player => player.id !== playerId)`. */
  function WithoutPlayer(players: seq<Player>, playerId: PlayerId): (r: seq<Player>)
    ensures |r| <= |players|
    decreases |players|
  {
    if |players| == 0 then []
    else (if players[0].id == playerId then [] else [players[0]]) + WithoutPlayer(players[1..], playerId)
  }

  /** The team with the player taken out, when it lists them. */
  function LeaveTeam(team: Team, playerId: PlayerId): Team {
    if playerId in team.players then team.(players := Without(team.players, playerId)) else team
  }

  function TimeIsUpReducer(s: Game, a: Action): (r: Game)
  {
    match a
    case SetAdmin(admin) => s.(admin := Some(admin))
    case AddPlayer(player) => s.(players := s.players + [player])
    case RemovePlayer(playerId) =>
      var players := WithoutPlayer(s.players, playerId);
      s.(players := players,
         config := if |players| == |s.players| then s.config
                   else s.config.(teams := seq(|s.config.teams|, i requires 0 <= i < |s.config.teams| =>
                                                 LeaveTeam(s.config.teams[i], playerId))))
    case SetWordsToFind(_) => s
  }

  // ---------------------------------------------------------------------
  // The filter on players.

  lemma {:induction false} WithoutPlayerMembers(players: seq<Player>, playerId: PlayerId)
    ensures forall p :: p in WithoutPlayer(players, playerId) <==> p in players && p.id != playerId
    decreases |players|
  {
    if |players| > 0 {
      WithoutPlayerMembers(players[1..], playerId);
      assert players == [players[0]] + players[1..];
    }
  }

  lemma {:induction false} WithoutPlayerConcat(a: seq<Player>, b: seq<Player>, playerId: PlayerId)
    ensures WithoutPlayer(a + b, playerId) == WithoutPlayer(a, playerId) + WithoutPlayer(b, playerId)
    decreases |a|
  {
    if |a| > 0 {
      WithoutPlayerConcat(a[1..], b, playerId);
      assert (a + b)[1..] == a[1..] + b;
    } else {
      assert a + b == b;
    }
  }

  /** The filter shortens the list exactly when some player has the id. */
  lemma {:induction false} WithoutPlayerKeepsLength(players: seq<Player>, playerId: PlayerId)
    ensures |WithoutPlayer(players, playerId)| == |players| <==> forall i :: 0 <= i < |players| ==> players[i].id != playerId
    ensures |WithoutPlayer(players, playerId)| == |players| ==> WithoutPlayer(players, playerId) == players
    decreases |players|
  {
    if |players| > 0 {
      WithoutPlayerKeepsLength(players[1..], playerId);
      assert forall i :: 1 <= i < |players| ==> players[i] == players[1..][i - 1];
    }
  }

  // ---------------------------------------------------------------------
  // What each action does.

  /** SET_ADMIN replaces the admin and nothing else. */
  lemma SetAdminOnlySetsAdmin(s: Game, admin: Player)
    ensures var r := TimeIsUpReducer(s, SetAdmin(admin));
      r.admin == Some(admin) && r.players == s.players && r.config == s.config
  {
  }

  /** ADD_PLAYER appends the player after the others and changes nothing
      else. */
  lemma AddPlayerAppends(s: Game, player: Player)
    ensures var r := TimeIsUpReducer(s, AddPlayer(player));
      |r.players| == |s.players| + 1 && r.players[..|s.players|] == s.players &&
      r.players[|s.players|] == player && r.admin == s.admin && r.config == s.config
  {
  }

  /** REMOVE_PLAYER keeps exactly the players with another id, in their
      order, and leaves the admin alone. */
  lemma RemovePlayerFilters(s: Game, playerId: PlayerId)
    ensures var r := TimeIsUpReducer(s, RemovePlayer(playerId));
      (forall p :: p in r.players <==> p in s.players && p.id != playerId) &&
      (forall a, b :: s.players == a + b ==> r.players == WithoutPlayer(a, playerId) + WithoutPlayer(b, playerId)) &&
      r.admin == s.admin
  {
    WithoutPlayerMembers(s.players, playerId);
    forall a, b | s.players == a + b
      ensures WithoutPlayer(s.players, playerId) == WithoutPlayer(a, playerId) + WithoutPlayer(b, playerId)
    {
      WithoutPlayerConcat(a, b, playerId);
    }
  }

  /** When no player has the id, the game comes back unchanged, config
      included, even when a team still lists the id. */
  lemma RemoveUnknownPlayerChangesNothing(s: Game, playerId: PlayerId)
    requires forall i :: 0 <= i < |s.players| ==> s.players[i].id != playerId
    ensures TimeIsUpReducer(s, RemovePlayer(playerId)) == s
  {
    WithoutPlayerKeepsLength(s.players, playerId);
  }

  /** When a player had the id, it leaves every team: the teams keep their
      number, order and names, and each keeps its other members in order. */
  lemma RemovePlayerLeavesTeams(s: Game, playerId: PlayerId)
    requires exists i :: 0 <= i < |s.players| && s.players[i].id == playerId
    ensures var teams := TimeIsUpReducer(s, RemovePlayer(playerId)).config.teams;
      |teams| == |s.config.teams| &&
      forall i :: 0 <= i < |teams| ==>
        teams[i].name == s.config.teams[i].name &&
        teams[i].players == Without(s.config.teams[i].players, playerId) &&
        playerId !in teams[i].players
  {
    WithoutPlayerKeepsLength(s.players, playerId);
    var teams := TimeIsUpReducer(s, RemovePlayer(playerId)).config.teams;
    forall i | 0 <= i < |teams|
      ensures teams[i].players == Without(s.config.teams[i].players, playerId)
      ensures playerId !in teams[i].players
    {
      WithoutAbsent(s.config.teams[i].players, playerId);
      WithoutMembers(s.config.teams[i].players, playerId);
    }
  }

  /** No action changes the team size or the words to find. */
  lemma ConfigSettingsNeverChange(s: Game, a: Action)
    ensures TimeIsUpReducer(s, a).config.teamSize == s.config.teamSize
    ensures TimeIsUpReducer(s, a).config.wordsToFind == s.config.wordsToFind
  {
  }

  /** SET_WORDS_TO_FIND reaches the default branch, which returns the
      state as it was. */
  lemma SetWordsToFindIsIgnored(s: Game, words: seq<string>)
    ensures TimeIsUpReducer(s, SetWordsToFind(words)) == s
  {
  }

  /** Removing "a" from a two-player game drops them from the players and
      from the red team; the empty blue team stays as it was. */
  lemma RemovePlayerExample()
    ensures var s := Game(None, [Player("a", "Ann"), Player("b", "Bob")],
                          Config(2, [Team("red", ["a", "b"]), Team("blue", [])], []));
      TimeIsUpReducer(s, RemovePlayer("a")) ==
        Game(None, [Player("b", "Bob")], Config(2, [Team("red", ["b"]), Team("blue", [])], []))
  {
    var players := [Player("a", "Ann"), Player("b", "Bob")];
    var none: seq<Player> := [];
    assert players[1..][1..] == none;
    assert WithoutPlayer(players[1..], "a") == [Player("b", "Bob")];
    assert WithoutPlayer(players, "a") == [Player("b", "Bob")];
    var red: seq<PlayerId> := ["a", "b"];
    var nobody: seq<PlayerId> := [];
    assert red[1..][1..] == nobody;
    assert Without(red[1..], "a") == ["b"];
    assert Without(red, "a") == ["b"];
    assert LeaveTeam(Team("red", red), "a") == Team("red", ["b"]);
    assert LeaveTeam(Team("blue", nobody), "a") == Team("blue", nobody);
  }
}
