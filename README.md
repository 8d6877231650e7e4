# GameCode server core in Dafny

This project models the server-side core of a turn-taking Mastermind-style game
(the Go packages `server/internal/domain` and `server/internal/repository`).
Players submit four-digit guesses against a secret code. Each guess is scored with
black pegs (right digit, right place) and white pegs (right digit, wrong place).
The game counts each player's attempts and finishes on a win or when a player
reaches the attempt limit. A registry keeps every running game under its
identifier.

Files and modules:

- `scoring.dfy`, module `Scoring`. The peg scoring done at the start of
  `Game.CheckGuess`.
  - `Score` is a pure function that follows the two passes position by position.
  - `ScoreGuess` is the imperative version. It uses the two boolean marker arrays
    of the source and is proved equal to `Score`.
  - `ScoreIsCommonDigits` is the main theorem. It says that black + white equals
    the size of the multiset intersection of the two codes. This is why repeated
    digits are never counted twice.
- `game.dfy`, module `Domain`. The Go `Game` struct becomes the class `Game`.
  - Its methods update the fields in place.
  - Each method is proved against a pure transition on `GameState`, which holds
    the values of all the fields (`Initial`, `WithPlayer`, `started := true`,
    `Outcome`/`AfterGuess`).
  - The lifecycle properties are lemmas about those transitions.
- `repo.dfy`, module `Repository`. The class `GameRepository` holds a
  `map<string, Game>`.

Codes and guesses are `seq<byte>`, because Go indexes and compares strings by
byte. Identifiers and names are `string`. The random number generator and the
clock are inputs:

- the values `rand.Intn` returned are the `idDraws`/`codeDraws` parameters;
- `time.Now()` is the `now` parameter. `Time` is `int`, and the model never
  looks inside it: times are only stored and copied.

Go's `%` truncates toward zero. The turn index is never negative (this is part of
`Inv`), so Dafny's Euclidean `%` gives the same value.

Three behaviours of the code are easy to miss, and the model keeps them:

- `CheckGuess` does not refuse a guess on a finished game. A game that is over is
  finished again, and its `FinishedAt` is overwritten.
- `CheckGuess` increments the counter of any id it is given, including an id that
  is not a player's. A missing key reads as 0.
- Nothing enforces turn order. `Current` only advances.

## Model

| member | source | states |
|---|---|---|
| `Scoring.ScoreGuess` | server/internal/domain/game.go:78-105 | Scoring with the two four-entry marker arrays (exact pass, then lowest-index free secret position per free guess position) yields exactly the pegs of `Score` |
| `Scoring.FirstFree` | server/internal/domain/game.go:98-104 | the inner scan stops at the lowest unconsumed secret position holding the guess byte; every earlier position is consumed or different; it reports "none" when there is no such position |
| `Scoring.WhiteIsIntersection` | server/internal/domain/game.go:93-105 | the guess bytes pass two awards a white peg are exactly the bytes the unconsumed guess positions and the unconsumed secret positions have in common (multiset intersection) |
| `Scoring.ScoreIsCommonDigits` | server/internal/domain/game.go:80-105 | black + white equals the number of bytes the secret and the guess share, counted with multiplicity |
| `Scoring.Score` | server/internal/domain/game.go:78-105 | the pegs of a guess: black <= 4 and black + white <= 4, because every position is consumed at most once |
| `Scoring.NoDoubleCounting` | server/internal/domain/game.go:84-105 | the bytes that earn a black or white peg are as many as the pegs and are exactly the common bytes: each byte value earns exactly the smaller of its counts in the secret and in the guess |
| `Scoring.WinIffEqual` | server/internal/domain/game.go:85-91 | black == 4 (the winning condition) holds exactly when the guess equals the secret |
| `Scoring.ExactGuess` | server/internal/domain/game.go:84-105 | a guess equal to the secret scores (4, 0) |
| `Scoring.DisjointGuess` | server/internal/domain/game.go:84-105 | a guess that shares no byte with the secret scores (0, 0) |
| `Scoring.ScoreSymmetric` | server/internal/domain/game.go:80-105 | exchanging secret and guess gives the same pegs |
| `Scoring.RepeatedDigitExample` | server/internal/domain/game.go:84-105 | secret "1123", guess "1111" scores (2, 0) |
| `Scoring.ReversedCodeExample` | server/internal/domain/game.go:84-105 | secret "1234", guess "4321" scores (0, 4) |
| `Domain.GenerateId` | server/internal/domain/game.go:52-59 | the identifier has six characters; character i is the alphabet entry the i-th draw selects |
| `Domain.GenerateCode` | server/internal/domain/game.go:61-67 | the code is four ASCII digits; byte i is '0' plus the i-th draw |
| `Domain.Initial` | server/internal/domain/game.go:40-50 | a new game, with no players, no counters, limit 5, not started and not finished, satisfies the game invariant; with capacity > 0 it is joinable |
| `Domain.Game.constructor` | server/internal/domain/game.go:40-50 | NewGame: generated identifier and code in their formats, every field as in `Initial`, joinable when capacity > 0 |
| `Domain.WithPlayer` | server/internal/domain/game.go:73-74 | admission appends exactly that player at the end and sets its counter to 0; other counters are unchanged; the invariant (including players <= capacity) is kept |
| `Domain.Game.AddPlayer` | server/internal/domain/game.go:69-76 | returns false and changes nothing on a full game; otherwise it returns true and the new state is `WithPlayer`; a joinable game always admits |
| `Domain.Joinable` | server/internal/domain/game.go:156-158 | IsJoinable: a joinable game admits the next player and cannot start yet; a finished game is never joinable |
| `Domain.AdmissionIsBounded` | server/internal/domain/game.go:69-76 | a run of admissions accepts exactly the calls made while there is room; the game then holds the first players offered, up to capacity |
| `Domain.TwoPlayerAdmission` | server/internal/domain/game.go:69-76 | a game for two accepts two players, rejects a third, and is then ready to start |
| `Domain.Game.StartIfReady` | server/internal/domain/game.go:124-130 | returns true and sets `started` exactly when the game is full and not started; otherwise nothing changes |
| `Domain.FlagsAreMonotone` | server/internal/domain/game.go:107-130 | a started game never starts again (StartIfReady is idempotent); a finished game stays finished after a guess or an admission |
| `Domain.Outcome` | server/internal/domain/game.go:110-111 | isWinner holds exactly when the guess equals the secret; gameOver holds exactly when the guess wins or the new counter reaches the limit; black + white <= 4 |
| `Domain.Game.CheckGuess` | server/internal/domain/game.go:78-122 | returns the pegs and flags of `Outcome`; the new state is `AfterGuess`; the game invariant is kept |
| `Domain.AfterGuess` | server/internal/domain/game.go:107-119 | the guesser's counter goes up by exactly 1 (a missing key counts as 0) and no other counter moves; the turn advances modulo the player count; secret, players, capacity, limit and start flag are unchanged; a game that is over is finished at `now`, with the guesser as winner when the guess won (unchanged otherwise); a game not over keeps its finish fields |
| `Domain.InvPreserved` | server/internal/domain/game.go:107-130 | guessing and starting keep the game invariant (capacity, code format, counters, started implies full, a winner implies finished) |
| `Domain.LosingGuesses` | server/internal/domain/game.go:107-119 | with no winning guess, the k-th guess ends the game exactly when the counter before the run, plus k, reaches the limit |
| `Domain.AttemptExhaustion` | server/internal/domain/game.go:107-119 | from a counter of 0 and a limit of 5, losing guesses 1-4 do not end the game and guess 5 does |
| `Domain.WinningGuess` | server/internal/domain/game.go:110-119 | a guess equal to the secret gives (4, 0, winner, game over), finishes the game, and records the guesser as winner |
| `Domain.Game.ToGameResult` | server/internal/domain/game.go:132-154 | copies id, secret, timestamps and winner; gives one player result per player, in player order, with that player's id, name and counter |
| `Repository.GameRepository.constructor` | server/internal/repository/repo.go:13-17 | the registry starts empty |
| `Repository.GameRepository.CreateGame` | server/internal/repository/repo.go:19-26 | stores a fresh game in the NewGame state under its identifier; entries under other ids are unchanged, and an id collision replaces the old entry; the key set grows by exactly that id |
| `Repository.GameRepository.GetGame` | server/internal/repository/repo.go:28-34 | found holds exactly when the id is a key, and the game returned is that entry (null otherwise); the map is unchanged |
| `Repository.GameRepository.AddPlayer` | server/internal/repository/repo.go:36-46 | returns false for an unknown id; otherwise returns the result of Game.AddPlayer on that entry; the map and every other game are unchanged, so no key is removed or added |

## Left out

- Locking and concurrency. The registry's `sync.RWMutex` is not modelled; every
  operation is one sequential step. The code has no lock per game, so a
  finishing transition that happens only once under racing guesses is not a
  property of this code, and a sequential model cannot state it.
- Randomness. `generateID` and `generateCode` take the values `rand.Intn`
  returned as parameters. `NewPlayer` and `generatePlayerID` in
  `server/internal/domain/player.go` are not part of this model. Players are
  arbitrary `Player` values.
- Time. `time.Now()` is a parameter. `Time` is `int`, and no operation computes
  with it. The zero `time.Time` is `ZeroTime`, which is 0, so a `now` of 0
  could not be told apart from it; `time.Now()` never returns the zero time.
- Domain.Game.CheckGuess: requires the guess to be exactly four bytes long. Go
  would also accept a longer guess and score only its first four bytes. Its
  only caller (`server/internal/api/handlers.go:92`) rejects every other length.
  The method also requires at least one player, because Go's `% len(g.Players)`
  panics on an empty list.
- Domain.Game.constructor: requires capacity >= 0, so that players <= capacity
  holds from the start. Go also accepts a negative capacity. Its only caller
  clamps the capacity to 2..4 (`server/internal/api/handlers.go:27-32`).
- Integer width. The attempt counters and the turn index are unbounded. Go's
  64-bit `int` would wrap only after about 2^63 guesses.
- `ToGameResult`'s `g.Players != nil` test is not modelled. A Go nil slice
  behaves as an empty one, so the result is the same.
- HTTP handlers, routing and `main`. These are `server/internal/api` and
  `server/cmd`. The handler's second assignment of the finish fields after
  `CheckGuess` repeats what `CheckGuess` already did.
- The XML result sink, `server/internal/repository/xml_repo.go`. It is file
  I/O and XML encoding.
- The console client and its data struct, under `client/`.
