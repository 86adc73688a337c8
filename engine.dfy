/** The turn-based game state of main.js as a value: the player roster, the
    asteroids, the index of the active player, the turn's start time and the
    announced result, with one function per step of the game loop and the
    invariants those steps keep. */
module Engine {
  import opened Options
  import opened Entities
  import opened Collision
  import opened Scoring

  /** Asteroids created by `initializeGame`. */
  const AsteroidCount := 5
  /** Pixels an asteroid falls per tick. */
  const AsteroidSpeed := 2
  /** Pixels an arrow key moves the active ship. */
  const KeyStep := 10
  /** Every ship starts at (SpawnX, canvas height - SpawnLift). */
  const SpawnX := 100
  const SpawnLift := 50

  /** A player record: its ship plus the `alive`/`survivalTime` mirror that
      `endGame` reduces over. */
  datatype Record = Record(ship: Ship, alive: bool, survivalTime: int)

  /** The module-level state of main.js. The active ship is the ship of
      `players[index]`; `result` is Some once `endGame` has run. */
  datatype World = World(width: int, height: int, players: seq<Record>, asteroids: seq<Rock>,
                         index: nat, startTime: int, result: Option<Announcement>)

  /** The index names a player, so there is an active ship. */
  predicate HasActive(w: World)
  {
    w.index < |w.players|
  }

  function Active(w: World): Ship
    requires HasActive(w)
  {
    w.players[w.index].ship
  }

  predicate Over(w: World)
  {
    w.result.Some?
  }

  /** The frozen survival times, in roster order. */
  function Times(rs: seq<Record>): seq<int>
  {
    seq(|rs|, i requires 0 <= i < |rs| => rs[i].survivalTime)
  }

  // ---------------------------------------------------------------------------
  // initializeGame

  /** A fresh record: a live ship at the spawn point, no time survived. */
  function Spawn(canvasHeight: int): Record
  {
    Record(Ship(SpawnX, canvasHeight - SpawnLift, ShipSize, ShipSize, 0, true), true, 0)
  }

  /** Three players when three are chosen, two for any other choice. */
  function RosterSize(numPlayers: int): nat
  {
    if numPlayers == 3 then 3 else 2
  }

  /** `initializeGame`, with the random asteroid positions `xs`, `ys` and the
      clock reading `now` passed in. */
  function Initialize(canvasWidth: int, canvasHeight: int, numPlayers: int,
                      xs: seq<int>, ys: seq<int>, now: int): World
    requires |xs| == AsteroidCount && |ys| == AsteroidCount
  {
    World(canvasWidth, canvasHeight,
          seq(RosterSize(numPlayers), _ => Spawn(canvasHeight)),
          seq(AsteroidCount, k requires 0 <= k < AsteroidCount => Rock(xs[k], ys[k], AsteroidSize)),
          0, now, None)
  }

  // ---------------------------------------------------------------------------
  // updateGame and the steps it is made of

  /** `asteroids.forEach(asteroid => asteroid.move(2))`, asteroid `k` recycled to
      column `rxs[k]` if it wraps. */
  function MoveAsteroids(w: World, rxs: seq<int>): World
    requires |rxs| == |w.asteroids|
  {
    w.(asteroids := seq(|w.asteroids|, k requires 0 <= k < |w.asteroids| =>
                          MoveRock(w.asteroids[k], AsteroidSpeed, w.height, rxs[k])))
  }

  /** `activePlayer.updateSurvivalTime()`. */
  function UpdateSurvivalTime(w: World, now: int): World
    requires HasActive(w)
  {
    var r := w.players[w.index];
    w.(players := w.players[w.index := r.(ship := UpdateShipSurvival(r.ship, now, w.startTime))])
  }

  /** The three assignments of `checkCollisions` on a hit: the active ship and
      its record die and the record takes the ship's survival time. */
  function MarkDead(w: World): World
    requires HasActive(w)
  {
    var s := Active(w);
    w.(players := w.players[w.index := Record(s.(alive := false), false, s.survivalTime)])
  }

  /** `endGame`: reduce the records to the winner and announce it. */
  function EndGame(w: World): World
    requires |w.players| > 0
  {
    w.(result := Some(Announce(Times(w.players))))
  }

  /** `handleDeath`: pass the turn to the next player and restart the turn clock,
      or end the game after the last player. */
  function HandleDeath(w: World, now: int): World
    requires HasActive(w)
  {
    if w.index < |w.players| - 1 then w.(index := w.index + 1, startTime := now)
    else EndGame(w)
  }

  /** `checkCollisions`: act on the first overlapped asteroid only, if any. */
  function CheckCollisions(w: World, now: int): World
    requires HasActive(w)
  {
    match FirstHit(Active(w), w.asteroids)
    case None => w
    case Some(_) => HandleDeath(MarkDead(w), now)
  }

  /** `updateGame` without its display update. */
  function UpdateGame(w: World, now: int, rxs: seq<int>): World
    requires HasActive(w) && |rxs| == |w.asteroids|
  {
    CheckCollisions(UpdateSurvivalTime(MoveAsteroids(w, rxs), now), now)
  }

  /** One callback of the game interval; `endGame` clears the interval, so
      after the result is announced no callback runs and nothing changes. */
  function Tick(w: World, now: int, rxs: seq<int>): World
    requires HasActive(w) && |rxs| == |w.asteroids|
  {
    if Over(w) then w else UpdateGame(w, now, rxs)
  }

  // ---------------------------------------------------------------------------
  // the keydown listener

  /** The arrow keys and the move each one makes; any other key makes none. */
  function KeyDelta(key: string): Option<(int, int)>
  {
    if key == "ArrowLeft" then Some((-KeyStep, 0))
    else if key == "ArrowRight" then Some((KeyStep, 0))
    else if key == "ArrowUp" then Some((0, -KeyStep))
    else if key == "ArrowDown" then Some((0, KeyStep))
    else None
  }

  /** The `keydown` listener: move the active ship, only while it is alive. */
  function KeyDown(w: World, key: string): World
    requires HasActive(w)
  {
    var r := w.players[w.index];
    if !r.ship.alive then w
    else match KeyDelta(key)
      case None => w
      case Some((dx, dy)) => w.(players := w.players[w.index := r.(ship := MoveShip(r.ship, dx, dy))])
  }

  // ---------------------------------------------------------------------------
  // invariants

  /** A record agrees with its ship: the same liveness; a live record has not
      been scored yet; a dead record holds the time its ship died with. */
  predicate RecordOk(r: Record)
  {
    && r.ship.width == ShipSize && r.ship.height == ShipSize
    && r.alive == r.ship.alive
    && (r.alive ==> r.survivalTime == 0)
    && (!r.alive ==> r.survivalTime == r.ship.survivalTime)
  }

  /** The game invariant: 2 or 3 players and 5 asteroids of size 80 in play;
      every player before the active one is dead, every player after it is
      untouched since the start; the game is over exactly when the active
      player is dead, which happens only to the last player, and then the
      announced result is the reduction over the frozen times. */
  ghost predicate Inv(w: World)
  {
    && w.width > 0 && w.height > 0
    && 2 <= |w.players| <= 3
    && |w.asteroids| == AsteroidCount
    && w.index < |w.players|
    && (forall i :: 0 <= i < |w.players| ==> RecordOk(w.players[i]))
    && (forall i :: 0 <= i < w.index ==> !w.players[i].alive)
    && (forall i :: w.index < i < |w.players| ==> w.players[i] == Spawn(w.height))
    && (Over(w) <==> !w.players[w.index].alive)
    && (Over(w) ==> w.index == |w.players| - 1 && w.result == Some(Announce(Times(w.players))))
    && (forall k :: 0 <= k < |w.asteroids| ==>
          w.asteroids[k].size == AsteroidSize && InPlay(w.asteroids[k], w.width, w.height))
  }

  /** What can happen between two states of one game: the canvas, the number of
      players and asteroids and every asteroid's size stay; the index never
      decreases; a dead record (and its ship) never changes again, so nobody is
      revived and a frozen time stays frozen; after the end nothing changes. */
  ghost predicate Evolves(w: World, w': World)
  {
    && w'.width == w.width && w'.height == w.height
    && |w'.players| == |w.players| && |w'.asteroids| == |w.asteroids|
    && w.index <= w'.index
    && (forall i :: 0 <= i < |w.players| && !w.players[i].alive ==> w'.players[i] == w.players[i])
    && (forall k :: 0 <= k < |w.asteroids| ==> w'.asteroids[k].size == w.asteroids[k].size)
    && (Over(w) ==> w' == w)
  }

  lemma EvolvesTransitive(w0: World, w1: World, w2: World)
    requires Evolves(w0, w1) && Evolves(w1, w2)
    ensures Evolves(w0, w2)
  {
  }

  /** The raw random inputs of one tick are admissible: one column per asteroid,
      each in [0, width), as `Math.random() * canvas.width` gives. */
  predicate Columns(w: World, rxs: seq<int>)
  {
    |rxs| == |w.asteroids| && forall k :: 0 <= k < |rxs| ==> 0 <= rxs[k] < w.width
  }

  // ---------------------------------------------------------------------------
  // properties of initializeGame

  /** `initializeGame` builds 3 records when 3 players are chosen and 2
      otherwise, all alive with no time and their ships 80 by 80 at
      (100, height - 50); 5 asteroids of size 80; the first player active; and
      the game invariant holds. */
  lemma InitializeEstablishesInv(canvasWidth: int, canvasHeight: int, numPlayers: int,
                                 xs: seq<int>, ys: seq<int>, now: int)
    requires canvasWidth > 0 && canvasHeight > 0
    requires |xs| == AsteroidCount && |ys| == AsteroidCount
    requires forall k :: 0 <= k < AsteroidCount ==> 0 <= xs[k] < canvasWidth && -canvasHeight < ys[k] <= 0
    ensures var w := Initialize(canvasWidth, canvasHeight, numPlayers, xs, ys, now);
      && Inv(w)
      && |w.players| == (if numPlayers == 3 then 3 else 2)
      && (forall i :: 0 <= i < |w.players| ==>
            w.players[i].alive && w.players[i].survivalTime == 0 &&
            w.players[i].ship == Ship(100, canvasHeight - 50, 80, 80, 0, true))
      && |w.asteroids| == 5
      && (forall k :: 0 <= k < 5 ==> w.asteroids[k] == Rock(xs[k], ys[k], 80))
      && w.index == 0 && Active(w) == w.players[0].ship && w.startTime == now && !Over(w)
  {
  }

  // ---------------------------------------------------------------------------
  // properties of one tick

  /** Moving the asteroids keeps every asteroid in play with its size. */
  lemma MoveAsteroidsInv(w: World, rxs: seq<int>)
    requires Inv(w) && Columns(w, rxs)
    ensures Inv(MoveAsteroids(w, rxs))
  {
    var w' := MoveAsteroids(w, rxs);
    forall k | 0 <= k < |w'.asteroids|
      ensures w'.asteroids[k].size == AsteroidSize && InPlay(w'.asteroids[k], w.width, w.height)
    {
      MoveRockStaysInPlay(w.asteroids[k], AsteroidSpeed, w.width, w.height, rxs[k]);
    }
  }

  /** Refreshing the clock of a live active ship keeps the invariant. */
  lemma UpdateSurvivalTimeInv(w: World, now: int)
    requires Inv(w)
    ensures Inv(UpdateSurvivalTime(w, now))
  {
    var w' := UpdateSurvivalTime(w, now);
    assert forall i :: 0 <= i < |w.players| && i != w.index ==> w'.players[i] == w.players[i];
    if Over(w) {
      // the active ship is dead, so its record is left as it was
      assert w'.players == w.players;
    }
  }

  /** On a hit while the game runs: the active ship and its record are dead and
      the record holds the ship's time; then either the next player's untouched
      ship becomes active with the turn clock restarted at `now`, or, after the
      last player, the index stays and the reduction is announced. */
  lemma HitFacts(w: World, now: int)
    requires Inv(w) && !Over(w)
    requires FirstHit(Active(w), w.asteroids).Some?
    ensures var w' := CheckCollisions(w, now);
      && !w'.players[w.index].alive && !w'.players[w.index].ship.alive
      && w'.players[w.index].survivalTime == Active(w).survivalTime
      && w'.players[w.index].ship == Active(w).(alive := false)
      && (forall i :: 0 <= i < |w.players| && i != w.index ==> w'.players[i] == w.players[i])
      && w'.asteroids == w.asteroids
      && (w.index < |w.players| - 1 ==>
            && w'.index == w.index + 1 && w'.startTime == now && !Over(w')
            && Active(w') == Spawn(w.height).ship && Active(w').alive && Active(w').survivalTime == 0)
      && (w.index == |w.players| - 1 ==>
            && w'.index == w.index && w'.startTime == w.startTime
            && w'.result == Some(Announce(Times(w'.players))))
  {
  }

  /** Without a hit `checkCollisions` changes nothing. */
  lemma NoHitFacts(w: World, now: int)
    requires HasActive(w)
    requires forall k :: 0 <= k < |w.asteroids| ==> !Overlaps(Active(w), w.asteroids[k])
    ensures CheckCollisions(w, now) == w
  {
  }

  /** `checkCollisions` keeps the invariant and only moves the game forward. */
  lemma CheckCollisionsInv(w: World, now: int)
    requires Inv(w) && !Over(w)
    ensures Inv(CheckCollisions(w, now)) && Evolves(w, CheckCollisions(w, now))
  {
    if FirstHit(Active(w), w.asteroids).Some? {
      HitFacts(w, now);
      var m := MarkDead(w);
      assert forall i :: 0 <= i < |w.players| && i != w.index ==> m.players[i] == w.players[i];
      assert RecordOk(m.players[w.index]);
    }
  }

  /** One tick keeps the game invariant and only moves the game forward. */
  lemma TickInv(w: World, now: int, rxs: seq<int>)
    requires Inv(w) && Columns(w, rxs)
    ensures Inv(Tick(w, now, rxs)) && Evolves(w, Tick(w, now, rxs))
  {
    if !Over(w) {
      var w1 := MoveAsteroids(w, rxs);
      MoveAsteroidsInv(w, rxs);
      var w2 := UpdateSurvivalTime(w1, now);
      UpdateSurvivalTimeInv(w1, now);
      assert Evolves(w, w2);
      CheckCollisionsInv(w2, now);
    }
  }

  /** Every asteroid falls by 2 each tick of a running game (or is recycled to
      its column), whatever happens to the players. */
  lemma TickMovesAsteroids(w: World, now: int, rxs: seq<int>)
    requires Inv(w) && Columns(w, rxs) && !Over(w)
    ensures |Tick(w, now, rxs).asteroids| == |w.asteroids|
    ensures forall k :: 0 <= k < |w.asteroids| ==>
              Tick(w, now, rxs).asteroids[k] == MoveRock(w.asteroids[k], AsteroidSpeed, w.height, rxs[k])
  {
  }

  /** The game ends only when the last player dies; then every player is dead
      and the announced winner has the largest frozen time, the last such
      player on a tie. Further ticks change nothing. */
  lemma GameOverFacts(w: World, now: int, rxs: seq<int>, key: string)
    requires Inv(w) && Over(w) && |rxs| == |w.asteroids|
    ensures w.index == |w.players| - 1
    ensures forall i :: 0 <= i < |w.players| ==> !w.players[i].alive
    ensures var a := w.result.value;
      && 1 <= a.ordinal <= |w.players|
      && a.seconds == w.players[a.ordinal - 1].survivalTime
      && (forall i :: 0 <= i < |w.players| ==> w.players[i].survivalTime <= a.seconds)
      && (forall i :: a.ordinal <= i < |w.players| ==> w.players[i].survivalTime < a.seconds)
    ensures Tick(w, now, rxs) == w && KeyDown(w, key) == w
  {
    var t := Times(w.players);
    assert forall i :: 0 <= i < |w.players| ==> t[i] == w.players[i].survivalTime;
  }

  // ---------------------------------------------------------------------------
  // properties of the keydown listener

  /** Exactly the four arrow keys move the ship (what the move does to the game
      is KeyDownFacts); each moves it by 10 pixels along one axis. */
  lemma KeyDeltaFacts(key: string)
    ensures KeyDelta(key).Some? <==> key in ["ArrowLeft", "ArrowRight", "ArrowUp", "ArrowDown"]
    ensures key == "ArrowLeft" ==> KeyDelta(key) == Some((-10, 0))
    ensures key == "ArrowRight" ==> KeyDelta(key) == Some((10, 0))
    ensures key == "ArrowUp" ==> KeyDelta(key) == Some((0, -10))
    ensures key == "ArrowDown" ==> KeyDelta(key) == Some((0, 10))
  {
  }

  /** A key press moves only the active ship, only when it is alive and the key
      is an arrow key, and keeps the game invariant. */
  lemma KeyDownFacts(w: World, key: string)
    requires Inv(w)
    ensures var w' := KeyDown(w, key);
      && Inv(w') && Evolves(w, w')
      && w'.asteroids == w.asteroids && w'.index == w.index && w'.result == w.result
      && (forall i :: 0 <= i < |w.players| && i != w.index ==> w'.players[i] == w.players[i])
      && (!Active(w).alive || KeyDelta(key).None? ==> w' == w)
      && (Active(w).alive && KeyDelta(key).Some? ==>
            w'.players[w.index] == w.players[w.index].(ship := MoveShip(Active(w), KeyDelta(key).value.0, KeyDelta(key).value.1)))
  {
    var w' := KeyDown(w, key);
    assert forall i :: 0 <= i < |w.players| && i != w.index ==> w'.players[i] == w.players[i];
  }

  // ---------------------------------------------------------------------------
  // whole games

  /** What drives the game between ticks: a timer callback with its clock
      reading and random columns, or a key press. */
  datatype Event = Frame(now: int, rxs: seq<int>) | Key(key: string)

  predicate Admissible(w: World, e: Event)
  {
    e.Frame? ==> Columns(w, e.rxs)
  }

  function Step(w: World, e: Event): World
    requires HasActive(w) && Admissible(w, e)
  {
    match e
    case Frame(now, rxs) => Tick(w, now, rxs)
    case Key(key) => KeyDown(w, key)
  }

  lemma StepInv(w: World, e: Event)
    requires Inv(w) && Admissible(w, e)
    ensures Inv(Step(w, e)) && Evolves(w, Step(w, e))
  {
    match e
    case Frame(now, rxs) => TickInv(w, now, rxs);
    case Key(key) => KeyDownFacts(w, key);
  }

  /** A game driven by a sequence of events. The width and the asteroid count
      never change, so admissibility can be judged against the starting state. */
  function Run(w: World, es: seq<Event>): (w': World)
    requires Inv(w) && forall i :: 0 <= i < |es| ==> Admissible(w, es[i])
    ensures Inv(w') && Evolves(w, w')
    decreases |es|
  {
    if es == [] then w
    else
      StepInv(w, es[0]);
      var w1 := Step(w, es[0]);
      forall i | 1 <= i < |es| ensures Admissible(w1, es[i]) {
        assert Admissible(w, es[i]);
      }
      var w' := Run(w1, es[1..]);
      EvolvesTransitive(w, w1, w');
      w'
  }

  /** Over a whole game the invariant holds after every event, the index never
      decreases, dead players stay dead with their time frozen, and once the
      result is announced nothing changes any more. */
  lemma {:induction false} RunForward(w: World, es: seq<Event>, n: nat)
    requires Inv(w) && forall i :: 0 <= i < |es| ==> Admissible(w, es[i])
    requires n <= |es|
    ensures Evolves(Run(w, es[..n]), Run(w, es))
    decreases |es|
  {
    if n > 0 {
      var w1 := Step(w, es[0]);
      StepInv(w, es[0]);
      forall i | 1 <= i < |es| ensures Admissible(w1, es[i]) {
        assert Admissible(w, es[i]);
      }
      assert es[..n][1..] == es[1..][..n - 1];
      RunForward(w1, es[1..], n - 1);
    }
  }
}
