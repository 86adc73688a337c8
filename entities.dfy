/** The two moving entities of the game, a spaceship and an asteroid, as values,
    with the motion and clock rules of their methods in main.js. */
module Entities {

  /** Side of a ship's square sprite; ships are 80 by 80 pixels. */
  const ShipSize := 80
  /** Side of an asteroid's square sprite. */
  const AsteroidSize := 80
  /** Milliseconds per second of survival time. */
  const MillisPerSecond := 1000

  /** A spaceship: top-left corner, sprite size, whole seconds survived in the
      current turn, and whether it is still alive. The sprite image is not modelled. */
  datatype Ship = Ship(x: int, y: int, width: int, height: int, survivalTime: int, alive: bool)

  /** An asteroid: top-left corner and the side of its square. */
  datatype Rock = Rock(x: int, y: int, size: int)

  /** `Spaceship.move`: an unconditional translation, with no clamping to the canvas. */
  function MoveShip(s: Ship, dx: int, dy: int): Ship
  {
    s.(x := s.x + dx, y := s.y + dy)
  }

  /** A move is undone by the opposite move and touches nothing but the
      position, which it shifts by exactly the deltas. */
  lemma MoveShipTranslates(s: Ship, dx: int, dy: int)
    ensures MoveShip(MoveShip(s, dx, dy), -dx, -dy) == s
    ensures MoveShip(s, dx, dy).(x := s.x, y := s.y) == s
    ensures MoveShip(s, dx, dy).x - s.x == dx && MoveShip(s, dx, dy).y - s.y == dy
  {
  }

  /** Whole seconds elapsed from `start` to `now`, rounded down as `Math.floor`
      does (Dafny's division by a positive divisor rounds down, also for a
      negative difference). */
  function SurvivalSeconds(now: int, start: int): (r: int)
    ensures r * MillisPerSecond <= now - start < (r + 1) * MillisPerSecond
  {
    (now - start) / MillisPerSecond
  }

  /** A later clock reading never gives fewer seconds. */
  lemma SurvivalSecondsMonotone(start: int, t1: int, t2: int)
    requires t1 <= t2
    ensures SurvivalSeconds(t1, start) <= SurvivalSeconds(t2, start)
  {
  }

  /** `Spaceship.updateSurvivalTime`: a live ship's survival time becomes the
      seconds since the turn began; a dead ship is left as it is. */
  function UpdateShipSurvival(s: Ship, now: int, start: int): Ship
  {
    if s.alive then s.(survivalTime := SurvivalSeconds(now, start)) else s
  }

  /** Only the survival time of a live ship changes; a dead ship's time is frozen,
      and a live ship's time never goes down as the clock advances. */
  lemma UpdateShipSurvivalFacts(s: Ship, now: int, start: int, later: int)
    requires now <= later
    ensures UpdateShipSurvival(s, now, start).(survivalTime := s.survivalTime) == s
    ensures !s.alive ==> UpdateShipSurvival(s, now, start) == s
    ensures s.alive ==> UpdateShipSurvival(s, now, start).survivalTime == SurvivalSeconds(now, start)
    ensures s.alive ==> UpdateShipSurvival(s, now, start).survivalTime
                        <= UpdateShipSurvival(s, later, start).survivalTime
  {
    SurvivalSecondsMonotone(start, now, later);
  }

  /** `Asteroid.move`: fall by `dy`; once the top edge is below the canvas
      (strictly greater than its height) the asteroid is recycled just above the
      top edge, in the column `rx` drawn at random from [0, width). */
  function MoveRock(a: Rock, dy: int, canvasHeight: int, rx: int): Rock
  {
    var y := a.y + dy;
    if y > canvasHeight then Rock(rx, -a.size, a.size) else a.(y := y)
  }

  /** An asteroid keeps its size through every move (and stays in play, see
      MoveRockStaysInPlay); the two cases of the move are spelled out as well:
      without wrapping only `y` changes, by `dy`; on wrapping `y` is `-size`
      and `x` is `rx`. */
  lemma MoveRockFacts(a: Rock, dy: int, canvasHeight: int, rx: int)
    ensures MoveRock(a, dy, canvasHeight, rx).size == a.size
    ensures a.y + dy <= canvasHeight ==>
              MoveRock(a, dy, canvasHeight, rx) == Rock(a.x, a.y + dy, a.size)
    ensures a.y + dy > canvasHeight ==>
              MoveRock(a, dy, canvasHeight, rx) == Rock(rx, -a.size, a.size)
  {
  }

  /** An asteroid in play: its column lies on the canvas and its top edge lies
      below `-(height + size)` and not below the bottom edge. */
  predicate InPlay(a: Rock, canvasWidth: int, canvasHeight: int)
  {
    0 <= a.x < canvasWidth && -canvasHeight - a.size < a.y <= canvasHeight
  }

  /** Asteroids never leave play: falling keeps them in play, and recycling puts
      them back at the top in a column on the canvas. */
  lemma MoveRockStaysInPlay(a: Rock, dy: int, canvasWidth: int, canvasHeight: int, rx: int)
    requires InPlay(a, canvasWidth, canvasHeight)
    requires 0 <= dy && 0 <= a.size && 0 < canvasHeight
    requires 0 <= rx < canvasWidth
    ensures InPlay(MoveRock(a, dy, canvasHeight, rx), canvasWidth, canvasHeight)
  {
  }
}
