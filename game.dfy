/**
 * One game's lifecycle state (server/internal/domain/game.go).
 *
 * The Go struct Game is the class Game below; its methods update the fields
 * in place. Each method is proved against a pure transition on GameState, the
 * value of all fields at once, and the properties the game promises are proved
 * as lemmas about those transitions.
 *
 * Randomness and the clock are inputs: the values rand.Intn returned are the
 * `draws` parameters, and time.Now() is the `now` parameter.
 */
module Domain {
  import opened Scoring

  /** An instant, as time.Now() returns it; the model never looks inside. */
  type Time = int

  /** The zero time.Time a new game has as FinishedAt. */
  const ZeroTime: Time := 0

  /** The Go zero string: Winner before anybody has won. */
  const NoWinner: string := ""

  /** The attempt limit every new game gets. */
  const DefaultMaxAttempts: int := 5

  /** Game identifiers are six characters drawn from this alphabet. */
  const IdAlphabet: string := "ABCDEFGHJKLMNPQRSTUVWXYZ23456789"
  const IdLength: nat := 6

  datatype Player = Player(id: string, name: string)

  datatype PlayerResult = PlayerResult(id: string, name: string, attempts: int)

  datatype GameResult = GameResult(
    gameId: string,
    secretCode: seq<byte>,
    startedAt: Time,
    finishedAt: Time,
    winner: string,
    players: seq<PlayerResult>)

  /** All fields of a Game. */
  datatype GameState = GameState(
    id: string,
    secretCode: seq<byte>,
    players: seq<Player>,
    maxPlayers: int,
    current: int,
    attempts: map<string, int>,
    startedAt: Time,
    finishedAt: Time,
    winner: string,
    started: bool,
    isFinished: bool,
    maxAttempts: int)

  datatype GuessOutcome = GuessOutcome(black: nat, white: nat, isWinner: bool, gameOver: bool)

  predicate IsGameId(id: string) {
    |id| == IdLength && forall i :: 0 <= i < |id| ==> id[i] in IdAlphabet
  }

  /** Reading a Go map: a missing key reads as 0. */
  function CountOf(attempts: map<string, int>, pid: string): int {
    if pid in attempts then attempts[pid] else 0
  }

  // ---------------------------------------------------------------------------
  // Generation of identifiers and codes

  /** generateID: character i of the identifier is IdAlphabet[draws[i]]. */
  method GenerateId(draws: seq<int>) returns (id: string)
    requires |draws| == IdLength && forall i :: 0 <= i < |draws| ==> 0 <= draws[i] < |IdAlphabet|
    ensures IsGameId(id)
    ensures forall i :: 0 <= i < IdLength ==> id[i] == IdAlphabet[draws[i]]
  {
    var b := new char[IdLength];
    for i := 0 to IdLength
      invariant forall k :: 0 <= k < i ==> b[k] == IdAlphabet[draws[k]]
    {
      b[i] := IdAlphabet[draws[i]];
    }
    id := b[..];
  }

  /** generateCode: byte i of the code is the digit draws[i]. */
  method GenerateCode(draws: seq<int>) returns (code: seq<byte>)
    requires |draws| == Width && forall i :: 0 <= i < |draws| ==> 0 <= draws[i] < 10
    ensures IsCode(code)
    ensures forall i :: 0 <= i < Width ==> code[i] as int == draws[i] + '0' as int
  {
    var b := new byte[Width];
    for i := 0 to Width
      invariant forall k :: 0 <= k < i ==> b[k] as int == draws[k] + '0' as int
    {
      b[i] := (draws[i] + '0' as int) as byte;
    }
    code := b[..];
  }

  // ---------------------------------------------------------------------------
  // The transitions, on values

  /**
   * What every reachable game satisfies: the player list is within capacity,
   * the secret is a four-digit code, every player has an attempt counter, no
   * counter is negative, the turn index is not negative, a started game is
   * full and a game with a winner is finished.
   */
  predicate Inv(st: GameState) {
    && |st.players| <= st.maxPlayers
    && IsCode(st.secretCode)
    && (forall p :: p in st.players ==> p.id in st.attempts)
    && (forall k :: k in st.attempts ==> st.attempts[k] >= 0)
    && 0 <= st.current
    && (st.started ==> |st.players| == st.maxPlayers)
    && (st.winner != NoWinner ==> st.isFinished)
  }

  /** The state NewGame builds from a generated identifier and code. */
  function Initial(id: string, code: seq<byte>, maxPlayers: int, now: Time): (st: GameState)
    ensures IsCode(code) && 0 <= maxPlayers ==> Inv(st)
    ensures 0 < maxPlayers ==> Joinable(st)
  {
    GameState(id, code, [], maxPlayers, 0, map[], now, ZeroTime, NoWinner, false, false, DefaultMaxAttempts)
  }

  /**
   * IsJoinable: the game is in its lobby phase. A joinable game admits the
   * next player and is not yet full, so it cannot start; a finished game is
   * never joinable.
   */
  predicate Joinable(st: GameState)
    ensures Joinable(st) ==> CanAdd(st) && !ReadyToStart(st)
    ensures st.isFinished ==> !Joinable(st)
  {
    !st.isFinished && |st.players| < st.maxPlayers
  }

  /** AddPlayer succeeds exactly when there is room. */
  predicate CanAdd(st: GameState) {
    |st.players| < st.maxPlayers
  }

  /** The state after a successful AddPlayer. */
  function WithPlayer(st: GameState, player: Player): (r: GameState)
    requires CanAdd(st)
    ensures Inv(st) ==> Inv(r)
    ensures r.players == st.players + [player] && |r.players| == |st.players| + 1
    ensures CountOf(r.attempts, player.id) == 0
    ensures forall k :: k != player.id ==> CountOf(r.attempts, k) == CountOf(st.attempts, k)
  {
    st.(players := st.players + [player], attempts := st.attempts[player.id := 0])
  }

  /** StartIfReady succeeds exactly when the game is full and not yet started. */
  predicate ReadyToStart(st: GameState) {
    |st.players| == st.maxPlayers && !st.started
  }

  /** The result of scoring a guess and deciding whether the game is over. */
  function Outcome(st: GameState, pid: string, guess: seq<byte>): (o: GuessOutcome)
    requires |st.secretCode| == Width && |guess| == Width
    ensures o.black + o.white <= Width
    ensures o.isWinner <==> guess == st.secretCode
    ensures o.gameOver <==> guess == st.secretCode || CountOf(st.attempts, pid) + 1 >= st.maxAttempts
  {
    WinIffEqual(st.secretCode, guess);
    var p := Score(st.secretCode, guess);
    var isWinner := p.black == Width;
    GuessOutcome(p.black, p.white, isWinner, isWinner || CountOf(st.attempts, pid) + 1 >= st.maxAttempts)
  }

  /**
   * The state after CheckGuess. The guessing id's counter goes up by one (a
   * missing key counts as 0) and no other counter moves; the turn index
   * advances modulo the player count; the secret, the players, the capacity,
   * the limit and the start flag are untouched. A game that is over is
   * finished at `now`, with the guesser as winner when the guess won and the
   * winner unchanged otherwise; a game that is not over keeps its finish
   * fields. Nothing checks whether the game was already finished.
   */
  function AfterGuess(st: GameState, pid: string, guess: seq<byte>, now: Time): (r: GameState)
    requires |st.secretCode| == Width && |guess| == Width && |st.players| > 0 && 0 <= st.current
    ensures CountOf(r.attempts, pid) == CountOf(st.attempts, pid) + 1
    ensures forall k :: k != pid ==> CountOf(r.attempts, k) == CountOf(st.attempts, k)
    ensures r.current == (st.current + 1) % |st.players| && 0 <= r.current < |st.players|
    ensures r.id == st.id && r.secretCode == st.secretCode && r.players == st.players
    ensures r.maxPlayers == st.maxPlayers && r.started == st.started && r.maxAttempts == st.maxAttempts
    ensures var o := Outcome(st, pid, guess);
      && (o.gameOver ==> r.isFinished && r.finishedAt == now)
      && (o.gameOver && o.isWinner ==> r.winner == pid)
      && (!o.isWinner ==> r.winner == st.winner)
      && (!o.gameOver ==> r.isFinished == st.isFinished && r.finishedAt == st.finishedAt)
  {
    var o := Outcome(st, pid, guess);
    st.(attempts := st.attempts[pid := CountOf(st.attempts, pid) + 1],
        current := (st.current + 1) % |st.players|,
        isFinished := if o.gameOver then true else st.isFinished,
        finishedAt := if o.gameOver then now else st.finishedAt,
        winner := if o.gameOver && o.isWinner then pid else st.winner)
  }

  // ---------------------------------------------------------------------------
  // Properties of the transitions

  /** Every transition keeps the invariant. */
  lemma InvPreserved(st: GameState, pid: string, guess: seq<byte>, now: Time)
    requires Inv(st) && |guess| == Width && |st.players| > 0
    ensures Inv(AfterGuess(st, pid, guess, now))
    ensures ReadyToStart(st) ==> Inv(st.(started := true))
  {
  }

  /** Once started, StartIfReady never succeeds again; once finished, a game stays finished. */
  lemma FlagsAreMonotone(st: GameState, player: Player, pid: string, guess: seq<byte>, now: Time)
    requires |guess| == Width && |st.secretCode| == Width && |st.players| > 0 && 0 <= st.current
    ensures !ReadyToStart(st.(started := true))
    ensures st.started ==> !ReadyToStart(st)
    ensures st.isFinished ==> AfterGuess(st, pid, guess, now).isFinished
    ensures CanAdd(st) && st.isFinished ==> WithPlayer(st, player).isFinished
  {
  }

  /** The acceptances of AddPlayer for each player of ps in turn. */
  function Admissions(st: GameState, ps: seq<Player>): seq<bool>
    decreases |ps|
  {
    if ps == [] then []
    else
      var ok := CanAdd(st);
      [ok] + Admissions(if ok then WithPlayer(st, ps[0]) else st, ps[1..])
  }

  /** The player list after AddPlayer for each player of ps in turn. */
  function AdmittedPlayers(st: GameState, ps: seq<Player>): seq<Player>
    decreases |ps|
  {
    if ps == [] then st.players
    else AdmittedPlayers(if CanAdd(st) then WithPlayer(st, ps[0]) else st, ps[1..])
  }

  /**
   * Capacity: a sequence of AddPlayer calls accepts exactly the calls made
   * while the game has room, and the game then holds the first players offered,
   * up to its capacity.
   */
  lemma {:induction false} AdmissionIsBounded(st: GameState, ps: seq<Player>)
    requires 0 <= |st.players| <= st.maxPlayers
    ensures |Admissions(st, ps)| == |ps|
    ensures forall k :: 0 <= k < |ps| ==> Admissions(st, ps)[k] == (|st.players| + k < st.maxPlayers)
    ensures var n := if |st.players| + |ps| <= st.maxPlayers then |ps| else st.maxPlayers - |st.players|;
      AdmittedPlayers(st, ps) == st.players + ps[..n]
    decreases |ps|
  {
    if ps != [] {
      var next := if CanAdd(st) then WithPlayer(st, ps[0]) else st;
      AdmissionIsBounded(next, ps[1..]);
      var n := if |st.players| + |ps| <= st.maxPlayers then |ps| else st.maxPlayers - |st.players|;
      if CanAdd(st) {
        assert ps[..n] == [ps[0]] + ps[1..][..n - 1];
      } else {
        assert n == 0;
      }
    }
  }

  /** A game for two accepts two players, rejects a third and is then ready to start. */
  lemma TwoPlayerAdmission(st: GameState, a: Player, b: Player, c: Player)
    requires st.maxPlayers == 2 && st.players == [] && !st.started
    ensures Admissions(st, [a, b, c]) == [true, true, false]
    ensures AdmittedPlayers(st, [a, b, c]) == [a, b]
    ensures ReadyToStart(WithPlayer(WithPlayer(st, a), b))
  {
    AdmissionIsBounded(st, [a, b, c]);
    assert [a, b, c][..2] == [a, b];
  }

  /** The gameOver flags of CheckGuess for the guesses of one player in turn. */
  function GameOvers(st: GameState, pid: string, guesses: seq<seq<byte>>, now: Time): seq<bool>
    requires |st.secretCode| == Width && |st.players| > 0 && 0 <= st.current
    requires forall k :: 0 <= k < |guesses| ==> |guesses[k]| == Width
    decreases |guesses|
  {
    if guesses == [] then []
    else [Outcome(st, pid, guesses[0]).gameOver] + GameOvers(AfterGuess(st, pid, guesses[0], now), pid, guesses[1..], now)
  }

  /** Without a winning guess, guess k of a player ends the game exactly when the attempt limit is reached. */
  lemma {:induction false} LosingGuesses(st: GameState, pid: string, guesses: seq<seq<byte>>, now: Time)
    requires |st.secretCode| == Width && |st.players| > 0 && 0 <= st.current
    requires forall k :: 0 <= k < |guesses| ==> |guesses[k]| == Width && guesses[k] != st.secretCode
    ensures |GameOvers(st, pid, guesses, now)| == |guesses|
    ensures forall k :: 0 <= k < |guesses| ==>
      GameOvers(st, pid, guesses, now)[k] == (CountOf(st.attempts, pid) + k + 1 >= st.maxAttempts)
    decreases |guesses|
  {
    if guesses != [] {
      var next := AfterGuess(st, pid, guesses[0], now);
      assert CountOf(next.attempts, pid) == CountOf(st.attempts, pid) + 1;
      LosingGuesses(next, pid, guesses[1..], now);
    }
  }

  /** Attempt exhaustion: from a fresh counter and the limit of 5, losing guesses 1-4 do not end the game and guess 5 does. */
  lemma AttemptExhaustion(st: GameState, pid: string, guesses: seq<seq<byte>>, now: Time)
    requires |st.secretCode| == Width && |st.players| > 0 && 0 <= st.current
    requires st.maxAttempts == DefaultMaxAttempts && CountOf(st.attempts, pid) == 0
    requires |guesses| == 5
    requires forall k :: 0 <= k < |guesses| ==> |guesses[k]| == Width && guesses[k] != st.secretCode
    ensures GameOvers(st, pid, guesses, now) == [false, false, false, false, true]
  {
    LosingGuesses(st, pid, guesses, now);
  }

  /** A winning guess ends the game at once and records the guesser as winner. */
  lemma WinningGuess(st: GameState, pid: string, now: Time)
    requires |st.secretCode| == Width && |st.players| > 0 && 0 <= st.current
    ensures Outcome(st, pid, st.secretCode) == GuessOutcome(Width, 0, true, true)
    ensures AfterGuess(st, pid, st.secretCode, now).winner == pid
    ensures AfterGuess(st, pid, st.secretCode, now).isFinished
  {
  }

  // ---------------------------------------------------------------------------
  // The Game object

  class Game {
    var id: string
    var secretCode: seq<byte>
    var players: seq<Player>
    var maxPlayers: int
    var current: int
    var attempts: map<string, int>
    var startedAt: Time
    var finishedAt: Time
    var winner: string
    var started: bool
    var isFinished: bool
    var maxAttempts: int

    /** The values of all fields. */
    function Snapshot(): GameState
      reads this
    {
      GameState(id, secretCode, players, maxPlayers, current, attempts,
        startedAt, finishedAt, winner, started, isFinished, maxAttempts)
    }

    ghost predicate Valid()
      reads this
    {
      Inv(Snapshot())
    }

    /** NewGame. */
    constructor (maxPlayers: int, idDraws: seq<int>, codeDraws: seq<int>, now: Time)
      requires 0 <= maxPlayers
      requires |idDraws| == IdLength && forall i :: 0 <= i < |idDraws| ==> 0 <= idDraws[i] < |IdAlphabet|
      requires |codeDraws| == Width && forall i :: 0 <= i < |codeDraws| ==> 0 <= codeDraws[i] < 10
      ensures Valid()
      ensures IsGameId(id) && forall i :: 0 <= i < IdLength ==> id[i] == IdAlphabet[idDraws[i]]
      ensures IsCode(secretCode) && forall i :: 0 <= i < Width ==> secretCode[i] as int == codeDraws[i] + '0' as int
      ensures Snapshot() == Initial(id, secretCode, maxPlayers, now)
      ensures 0 < maxPlayers ==> IsJoinable()
    {
      var gid := GenerateId(idDraws);
      var code := GenerateCode(codeDraws);
      id := gid;
      secretCode := code;
      this.maxPlayers := maxPlayers;
      players := [];
      attempts := map[];
      current := 0;
      startedAt := now;
      finishedAt := ZeroTime;
      winner := NoWinner;
      started := false;
      isFinished := false;
      maxAttempts := DefaultMaxAttempts;
    }

    /** Not finished and not full. */
    predicate IsJoinable()
      reads this
    {
      Joinable(Snapshot())
    }

    method AddPlayer(player: Player) returns (ok: bool)
      requires Valid()
      modifies this
      ensures Valid()
      ensures ok == CanAdd(old(Snapshot()))
      ensures old(IsJoinable()) ==> ok
      ensures Snapshot() == if ok then WithPlayer(old(Snapshot()), player) else old(Snapshot())
    {
      if |players| >= maxPlayers {
        return false;
      }
      players := players + [player];
      attempts := attempts[player.id := 0];
      return true;
    }

    method CheckGuess(playerId: string, guess: seq<byte>, now: Time)
      returns (black: nat, white: nat, isWinner: bool, gameOver: bool)
      requires Valid()
      requires |guess| == Width
      requires |players| > 0
      modifies this
      ensures Valid()
      ensures GuessOutcome(black, white, isWinner, gameOver) == Outcome(old(Snapshot()), playerId, guess)
      ensures Snapshot() == AfterGuess(old(Snapshot()), playerId, guess, now)
    {
      ghost var st := Snapshot();
      black, white := ScoreGuess(secretCode, guess);

      attempts := attempts[playerId := CountOf(attempts, playerId) + 1];
      current := (current + 1) % |players|;

      isWinner := black == Width;
      gameOver := isWinner || attempts[playerId] >= maxAttempts;

      if gameOver {
        isFinished := true;
        finishedAt := now;
        if isWinner {
          winner := playerId;
        }
      }
      InvPreserved(st, playerId, guess, now);
    }

    method StartIfReady() returns (ok: bool)
      requires Valid()
      modifies this
      ensures Valid()
      ensures ok == ReadyToStart(old(Snapshot()))
      ensures Snapshot() == if ok then old(Snapshot()).(started := true) else old(Snapshot())
    {
      if |players| == maxPlayers && !started {
        started := true;
        return true;
      }
      return false;
    }

    method ToGameResult() returns (r: GameResult)
      ensures r.gameId == id && r.secretCode == secretCode && r.winner == winner
      ensures r.startedAt == startedAt && r.finishedAt == finishedAt
      ensures |r.players| == |players|
      ensures forall i :: 0 <= i < |players| ==>
        r.players[i] == PlayerResult(players[i].id, players[i].name, CountOf(attempts, players[i].id))
    {
      var results: seq<PlayerResult> := [];
      for i := 0 to |players|
        invariant |results| == i
        invariant forall k :: 0 <= k < i ==>
          results[k] == PlayerResult(players[k].id, players[k].name, CountOf(attempts, players[k].id))
      {
        results := results + [PlayerResult(players[i].id, players[i].name, CountOf(attempts, players[i].id))];
      }
      r := GameResult(id, secretCode, startedAt, finishedAt, winner, results);
    }
  }
}
