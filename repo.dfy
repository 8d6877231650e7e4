/**
 * The in-memory registry of games (server/internal/repository/repo.go): a map
 * from game identifier to the shared Game object. The source guards the map
 * with a read/write mutex; this model is sequential, so each operation is one
 * atomic step.
 */
module Repository {
  import opened Scoring
  import opened Domain

  class GameRepository {
    var games: map<string, Game>

    /** Every stored game is valid and is stored under its own identifier. */
    ghost predicate Valid()
      reads this, games.Values
    {
      forall k :: k in games ==> games[k].id == k && games[k].Valid()
    }

    /** NewGameRepository. */
    constructor ()
      ensures Valid()
      ensures games == map[]
    {
      games := map[];
    }

    /**
     * CreateGame: a new game, stored under its identifier. An earlier game
     * with the same identifier is replaced; every other entry stays.
     */
    method CreateGame(maxPlayers: int, idDraws: seq<int>, codeDraws: seq<int>, now: Time) returns (game: Game)
      requires Valid()
      requires 0 <= maxPlayers
      requires |idDraws| == IdLength && forall i :: 0 <= i < |idDraws| ==> 0 <= idDraws[i] < |IdAlphabet|
      requires |codeDraws| == Width && forall i :: 0 <= i < |codeDraws| ==> 0 <= codeDraws[i] < 10
      modifies this
      ensures Valid()
      ensures fresh(game)
      ensures games == old(games)[game.id := game]
      ensures games.Keys == old(games).Keys + {game.id}
      ensures IsGameId(game.id) && IsCode(game.secretCode)
      ensures game.Snapshot() == Initial(game.id, game.secretCode, maxPlayers, now)
    {
      game := new Game(maxPlayers, idDraws, codeDraws, now);
      games := games[game.id := game];
    }

    /** GetGame: the stored game and true, or null and false for an unknown identifier. */
    method GetGame(gameId: string) returns (game: Game?, found: bool)
      ensures found <==> gameId in games
      ensures found ==> game == games[gameId]
      ensures !found ==> game == null
    {
      found := gameId in games;
      if found {
        game := games[gameId];
      } else {
        game := null;
      }
    }

    /**
     * AddPlayer: false for an unknown identifier; otherwise Game.AddPlayer on
     * the stored game. Only that game changes and the key set stays the same.
     */
    method AddPlayer(gameId: string, player: Player) returns (ok: bool)
      requires Valid()
      modifies if gameId in games then {games[gameId]} else {}
      ensures Valid()
      ensures games == old(games)
      ensures gameId !in games ==> !ok
      ensures gameId in games ==>
        var g := games[gameId];
        && ok == CanAdd(old(g.Snapshot()))
        && g.Snapshot() == if ok then WithPlayer(old(g.Snapshot()), player) else old(g.Snapshot())
      ensures forall k :: k in games && k != gameId ==> games[k].Snapshot() == old(games[k].Snapshot())
    {
      if gameId !in games {
        return false;
      }
      var game := games[gameId];
      ok := game.AddPlayer(player);
      forall k | k in games && k != gameId
        ensures games[k] != game
      {
        assert games[k].id == k;
      }
    }
  }
}
