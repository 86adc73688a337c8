# Space-racing game engine in Dafny

This project models the game logic of `main.js`, a single-screen arcade game.
Two or three players take turns flying a spaceship that dodges five falling
asteroids. A player's turn ends when their ship overlaps an asteroid. The game
ends when the last player's ship is hit, and the player with the longest
survival time wins.

The model has two layers:

- **A value model** (modules `Entities`, `Collision`, `Scoring`, `Engine`). Ships,
  asteroids, player records and the whole game state are datatypes. Every step of
  the game loop is a function on them: `initializeGame`, the asteroid move, the
  survival clock, `checkCollisions`, `handleDeath`, `endGame`, one interval tick
  and the `keydown` listener. The lemmas about these functions carry the
  properties: the overlap test is exact, the scan acts on the first overlapped
  asteroid only, the turn invariant holds, the winner reduction is correct, and
  dead players stay dead with frozen times over any run of events.
- **An object model** (module `Session`). `Spaceship`, `Asteroid`, `PlayerRecord`
  and `Game` are classes whose methods assign fields in place, as main.js does.
  Each `Game` method is proved to change the state exactly as the matching
  `Engine` function does (`View() == Engine.X(old(View()), ...)`). `Game.Valid()`
  is the `Engine.Inv` game invariant, and `Tick` and `KeyDown` preserve it.

Inputs from the environment become parameters:

- `Date.now()` becomes `now`.
- `Math.random() * canvas.width` becomes a column `rx` in `[0, width)`.
- `Math.random() * -canvas.height` becomes a `y` in `(-height, 0]`.

Positions and sizes are integers.

Ties in the winner reduction (main.js:173) go to the later player, not the
first. The comparison is `prev.survivalTime > current.survivalTime ? prev :
current`, so with times 10 and 10 Player 2 is announced
(`Scoring.AnnounceTieGoesToLater`).

## Model

| member | source | states |
|---|---|---|
| `Entities.MoveShip` | main.js:46-49 | `Spaceship.move` as a function on ship values. Its contract is carried by `Entities.MoveShipTranslates`. |
| `Entities.MoveShipTranslates` | main.js:46-49 | `move` shifts the ship by exactly (dx, dy) with no clamping. It changes nothing but x and y, and the opposite move undoes it. |
| `Entities.SurvivalSeconds` | main.js:53 | Survival time is the floor of the elapsed milliseconds over 1000: `r*1000 <= now-start < (r+1)*1000`. |
| `Entities.SurvivalSecondsMonotone` | main.js:53 | A later clock reading never gives fewer seconds. |
| `Entities.UpdateShipSurvivalFacts` | main.js:51-55 | `updateSurvivalTime` changes only the survival time. A dead ship is left unchanged. A live ship's time is the floor of the seconds elapsed and never decreases as the clock advances. |
| `Entities.UpdateShipSurvival` | main.js:51-55 | `Spaceship.updateSurvivalTime` on ship values. Its contract is carried by `Entities.UpdateShipSurvivalFacts`. |
| `Entities.MoveRock` | main.js:69-75 | `Asteroid.move` on asteroid values, with the random column `rx` as a parameter. Its contract is carried by `Entities.MoveRockFacts` and `Entities.MoveRockStaysInPlay`. |
| `Entities.MoveRockFacts` | main.js:69-75 | The asteroid's size never changes. If `y+dy <= height`, only `y` changes, by `dy`. Otherwise `y = -size` and `x` is the random column. |
| `Entities.MoveRockStaysInPlay` | main.js:69-75 | Asteroids are recycled, never lost. An asteroid whose column is on the canvas and whose top edge is between `-(height+size)` and `height` stays that way after a move. |
| `Collision.Overlaps` | main.js:146-151 | The four strict inequalities of the collision test. Its contract is carried by `Collision.OverlapsIffSharesCell` and `Collision.TouchingIsNoOverlap`. |
| `Collision.OverlapsIffSharesCell` | main.js:146-151 | For positive sizes, the four strict inequalities hold exactly when the ship and the asteroid cover a common pixel cell. |
| `Collision.TouchingIsNoOverlap` | main.js:147-150 | Because the inequalities are strict, sprites that only share an edge do not collide. |
| `Collision.FirstHitFrom` | main.js:145-158 | The scan returns the first asteroid in array order that the ship overlaps, with no overlap before it. It returns None exactly when no asteroid is overlapped. |
| `Collision.FirstHit` | main.js:145-158 | The scan over all asteroids from index 0. Its contract is carried by `Collision.FirstHitFrom` and `Collision.FirstHitIsFirst`. |
| `Collision.FirstHitIsFirst` | main.js:145-158 | The scan picks asteroid k exactly when k is overlapped and no earlier asteroid is. |
| `Scoring.WinnerIndex` | main.js:173 | The reduction returns an index whose time is at least every other time. Every later index has a strictly smaller time. |
| `Scoring.WinnerIsLastMaximum` | main.js:173 | The last index holding the maximum time is exactly what the reduction returns. |
| `Scoring.Announce` | main.js:173-174 | The ordinal is index + 1, in `[1, n]`. The seconds are that record's time, the maximum of all times. Players after the winner have strictly less. |
| `Scoring.AnnounceDistinctTimes` | main.js:173-174 | Times 7, 12, 9 announce Player 2 with 12 seconds. |
| `Scoring.AnnounceTieGoesToLater` | main.js:173-174 | Times 10, 10 announce Player 2: a tie goes to the later player. |
| `Engine.Initialize` | main.js:88-110 | `initializeGame` on values. Its contract is carried by `Engine.InitializeEstablishesInv`. |
| `Engine.MoveAsteroids` | main.js:127 | `asteroids.forEach(a => a.move(2))` on values. Its contract is carried by `Engine.MoveAsteroidsInv` and `Engine.TickMovesAsteroids`. |
| `Engine.UpdateSurvivalTime` | main.js:129 | `activePlayer.updateSurvivalTime()` on values. Its contract is carried by `Engine.UpdateSurvivalTimeInv`. |
| `Engine.MarkDead` | main.js:152-154 | The three assignments on a hit. Its contract is carried by `Engine.HitFacts`. |
| `Engine.HandleDeath` | main.js:161-169 | `handleDeath` on values. Its contract is carried by `Engine.HitFacts`. |
| `Engine.EndGame` | main.js:171-175 | `endGame` on values: the announcement of `Scoring.Announce` over the frozen times. Its contract is carried by `Engine.HitFacts` and `Engine.GameOverFacts`. |
| `Engine.CheckCollisions` | main.js:144-159 | `checkCollisions` on values. Its contract is carried by `Engine.HitFacts`, `Engine.NoHitFacts` and `Engine.CheckCollisionsInv`. |
| `Engine.UpdateGame` | main.js:123-132 | `updateGame` without the display, on values. Its contract is carried by `Engine.TickInv` and `Engine.TickMovesAsteroids`. |
| `Engine.Tick` | main.js:117-120 | One interval callback, which does nothing after `endGame` has cleared the interval. Its contract is carried by `Engine.TickInv` and `Engine.GameOverFacts`. |
| `Engine.InitializeEstablishesInv` | main.js:88-110 | The roster has exactly 3 records when 3 players are chosen and 2 otherwise. All records are alive with time 0 and hold an 80x80 ship at (100, height-50). There are exactly 5 asteroids of size 80 at the given positions. Index 0 is active, the turn clock starts now, and the game invariant holds. |
| `Engine.MoveAsteroidsInv` | main.js:127 | Moving every asteroid by 2 keeps the game invariant: each asteroid keeps size 80 and stays in play. |
| `Engine.UpdateSurvivalTimeInv` | main.js:129 | Refreshing the active ship's clock keeps the game invariant. |
| `Engine.HitFacts` | main.js:144-169 | On a hit, the active ship and its record are dead, and the record's time is the ship's time. All other records and the asteroids are unchanged. If the active player is not the last, the index rises by exactly 1, the new active ship is an untouched live ship with time 0, and the clock restarts at `now`. If it is the last, the index stays and the reduction over the frozen times is announced. |
| `Engine.NoHitFacts` | main.js:145-158 | Without an overlapped asteroid, `checkCollisions` changes nothing: no record, no index and no active ship. |
| `Engine.CheckCollisionsInv` | main.js:144-169 | `checkCollisions` keeps the game invariant and only moves the game forward (`Evolves`). |
| `Engine.TickInv` | main.js:123-132 | One interval tick keeps the invariant: 2-3 players and 5 asteroids; players before the index are dead and players after it are untouched; the game is over exactly when the active (last) player is dead. The tick never lowers the index, never revives a player, never changes a frozen time or an asteroid size, and changes nothing after the end. |
| `Engine.TickMovesAsteroids` | main.js:127 | In a running game, each tick moves asteroid k exactly as `move(2)` with column `rxs[k]`, and the asteroid count is unchanged. |
| `Engine.GameOverFacts` | main.js:166-174 | The game ends only on the last index, with every player dead. The announced winner has the maximum frozen time, and a later player wins a tie. After the end, ticks and key presses change nothing. |
| `Engine.KeyDelta` | main.js:179-192 | The arrow-key table. Its contract is carried by `Engine.KeyDeltaFacts`. |
| `Engine.KeyDown` | main.js:177-194 | The `keydown` listener on values. Its contract is carried by `Engine.KeyDownFacts`. |
| `Engine.KeyDeltaFacts` | main.js:179-192 | Exactly ArrowLeft/Right/Up/Down move the ship, by (-10,0), (10,0), (0,-10) and (0,10). |
| `Engine.KeyDownFacts` | main.js:177-194 | A key press changes only the active ship's position, by that key's delta. A dead active ship or another key changes nothing. The game invariant is kept. |
| `Engine.Run` | main.js:117-120 | After any sequence of ticks and key presses from a valid state, the invariant holds and the game has only moved forward. |
| `Engine.RunForward` | main.js:152-168 | Over a whole game, the state after any prefix of events evolves into the final state. The index never decreases, dead players are never revived, frozen times stay frozen, and nothing changes after the result. |
| `Session.Spaceship.constructor` | main.js:31-40 | A new ship is at (x, y), 80x80, alive, with time 0. |
| `Session.Spaceship.Move` | main.js:46-49 | The in-place move has the effect of `Entities.MoveShip`. |
| `Session.Spaceship.UpdateSurvivalTime` | main.js:51-55 | The in-place update has the effect of `Entities.UpdateShipSurvival`. |
| `Session.Asteroid.constructor` | main.js:59-63 | A new asteroid has the given position and size. |
| `Session.Asteroid.Move` | main.js:69-75 | The in-place move has the effect of `Entities.MoveRock`. |
| `Session.PlayerRecord.constructor` | main.js:93 | A record holds its ship, is alive and has time 0. |
| `Session.NewPlayer` | main.js:93-97 | A pushed player is a fresh record and a fresh ship at the spawn point, alive with time 0. |
| `Session.NewAsteroids` | main.js:100-104 | The loop pushes exactly 5 fresh, distinct asteroids of size 80 at the given positions. |
| `Session.NewRoster` | main.js:93-98 | Two pushes and a third when 3 players are chosen: exactly `RosterSize` fresh, distinct records and ships, all at the spawn point, alive with time 0. |
| `Session.Game.constructor` | main.js:88-110 | `initializeGame` builds a state equal to `Engine.Initialize` and establishes `Valid()`; every record, ship and asteroid it holds is a new object, so the caller may run `Tick` and `KeyDown` on it. |
| `Session.Game.MoveAsteroids` | main.js:127 | The `forEach` loop has the effect of `Engine.MoveAsteroids`. |
| `Session.Game.RefreshActiveSurvival` | main.js:129 | `activePlayer.updateSurvivalTime()` has the effect of `Engine.UpdateSurvivalTime`: only the active ship changes. |
| `Session.Game.CheckCollisions` | main.js:144-159 | The `for`/`break` loop has the effect of `Engine.CheckCollisions`. |
| `Session.Game.HandleDeath` | main.js:161-169 | The next player becomes active with the clock reset, or the game ends, as `Engine.HandleDeath`. |
| `Session.Game.EndGame` | main.js:171-175 | The result is the reduction over the records' frozen times, announced as ordinal and seconds; the state changes exactly as `Engine.EndGame`. |
| `Session.Game.UpdateGame` | main.js:123-132 | Move the asteroids, refresh the clock, then test collisions, as `Engine.UpdateGame`. |
| `Session.Game.Tick` | main.js:117-120 | One interval callback keeps `Valid()` and has the effect of `Engine.Tick`. |
| `Session.Game.KeyDown` | main.js:177-194 | The key listener keeps `Valid()` and has the effect of `Engine.KeyDown`. |

## Left out

- Canvas and DOM plumbing is not modelled: element lookups, `draw`/`drawGame`, `clearRect`, image loading, ship skin selection, the player-count listener and the "Time: Ns" display. These are output only, with no game logic.
- `setInterval`/`clearInterval` and `alert` are not modelled. Clearing the interval is modelled by `Tick` doing nothing once a result exists. The alert text is modelled as an `Announcement` (ordinal, seconds).
- Restarting is modelled as building a new `Game`. `startGame`'s clearing of a previous interval (at most one loop running) is scheduling and is not modelled.
- The idle state before the first start is not modelled. In that state `activePlayer` is null and a key press would throw.
- `Date.now()` is read separately in `updateSurvivalTime` and in `handleDeath`. The model uses one reading, `now`, per tick.
- `Math.random()` is not modelled. Its values are parameters with the ranges it produces. The canvas is assumed to have a positive width and height.
- Positions are floating-point in main.js but integers here. Every delta in the code is an integer, and no rule depends on fractions.
- `turnDuration`/`turnEndTime` are written but never read, so there is no turn timeout.
- `players.indexOf(winner)` is modelled as the index the reduction settles on. The records are distinct objects, so the two agree.
