/** The objects of main.js as they are updated in place: ships, asteroids and
    player records are objects whose fields the game's functions assign, and a
    game session owns the roster, the asteroids, the active player and the turn
    clock. Each method is proved to act on the state exactly as the matching
    step of Engine does on values. */
module Session {
  import opened Options
  import opened Entities
  import opened Collision
  import opened Scoring
  import Engine

  class Spaceship {
    var x: int
    var y: int
    const width: int
    const height: int
    var survivalTime: int
    var alive: bool

    ghost function View(): Ship
      reads this
    {
      Ship(x, y, width, height, survivalTime, alive)
    }

    constructor (x0: int, y0: int)
      ensures View() == Ship(x0, y0, ShipSize, ShipSize, 0, true)
    {
      x, y := x0, y0;
      width, height := ShipSize, ShipSize;
      survivalTime, alive := 0, true;
    }

    /** `move(dx, dy)`. */
    method Move(dx: int, dy: int)
      modifies this
      ensures View() == MoveShip(old(View()), dx, dy)
    {
      x := x + dx;
      y := y + dy;
    }

    /** `updateSurvivalTime()`, with the clock reading and the turn's start time
        passed in. */
    method UpdateSurvivalTime(now: int, startTime: int)
      modifies this
      ensures View() == UpdateShipSurvival(old(View()), now, startTime)
    {
      if alive {
        survivalTime := (now - startTime) / MillisPerSecond;
      }
    }
  }

  class Asteroid {
    var x: int
    var y: int
    const size: int

    ghost function View(): Rock
      reads this
    {
      Rock(x, y, size)
    }

    constructor (x0: int, y0: int, size0: int)
      ensures View() == Rock(x0, y0, size0)
    {
      x, y, size := x0, y0, size0;
    }

    /** `move(dy)`, with the canvas height and the random column passed in. */
    method Move(dy: int, canvasHeight: int, rx: int)
      modifies this
      ensures View() == MoveRock(old(View()), dy, canvasHeight, rx)
    {
      y := y + dy;
      if y > canvasHeight {
        y := -size;
        x := rx;
      }
    }
  }

  /** The `{ player, alive, survivalTime }` object kept per player. */
  class PlayerRecord {
    const player: Spaceship
    var alive: bool
    var survivalTime: int

    constructor (ship: Spaceship)
      ensures player == ship && alive && survivalTime == 0
    {
      player, alive, survivalTime := ship, true, 0;
    }
  }

  /** The object literal pushed for each player by `initializeGame`: a new
      ship at the spawn point, alive, with no time survived. */
  method NewPlayer(canvasHeight: int) returns (r: PlayerRecord)
    ensures fresh(r) && fresh(r.player)
    ensures r.alive && r.survivalTime == 0
    ensures r.player.View() == Engine.Spawn(canvasHeight).ship
  {
    var ship := new Spaceship(Engine.SpawnX, canvasHeight - Engine.SpawnLift);
    r := new PlayerRecord(ship);
  }

  /** The pushes of `initializeGame` that build the roster: two players, and a
      third when three are chosen. */
  method NewRoster(numPlayers: int, canvasHeight: int) returns (roster: seq<PlayerRecord>)
    ensures |roster| == Engine.RosterSize(numPlayers)
    ensures forall i :: 0 <= i < |roster| ==> fresh(roster[i]) && fresh(roster[i].player)
    ensures forall i :: 0 <= i < |roster| ==>
              roster[i].alive && roster[i].survivalTime == 0 &&
              roster[i].player.View() == Engine.Spawn(canvasHeight).ship
    ensures forall i, j :: 0 <= i < j < |roster| ==>
              roster[i] != roster[j] && roster[i].player != roster[j].player
  {
    var p1 := NewPlayer(canvasHeight);
    var p2 := NewPlayer(canvasHeight);
    roster := [p1, p2];
    if numPlayers == 3 {
      var p3 := NewPlayer(canvasHeight);
      roster := roster + [p3];
    }
  }

  /** The loop of `initializeGame` that pushes one new asteroid of size 80 per
      random position. */
  method NewAsteroids(xs: seq<int>, ys: seq<int>) returns (rocks: seq<Asteroid>)
    requires |xs| == Engine.AsteroidCount && |ys| == Engine.AsteroidCount
    ensures |rocks| == Engine.AsteroidCount
    ensures forall j :: 0 <= j < |rocks| ==> fresh(rocks[j])
    ensures forall j :: 0 <= j < |rocks| ==> rocks[j].View() == Rock(xs[j], ys[j], AsteroidSize)
    ensures forall j, l :: 0 <= j < l < |rocks| ==> rocks[j] != rocks[l]
  {
    rocks := [];
    for k := 0 to Engine.AsteroidCount
      invariant |rocks| == k
      invariant forall j :: 0 <= j < k ==> fresh(rocks[j])
      invariant forall j :: 0 <= j < k ==> rocks[j].View() == Rock(xs[j], ys[j], AsteroidSize)
      invariant forall j, l :: 0 <= j < l < k ==> rocks[j] != rocks[l]
    {
      var rock := new Asteroid(xs[k], ys[k], AsteroidSize);
      rocks := rocks + [rock];
    }
  }

  /** One game, from `initializeGame` to `endGame`. */
  class Game {
    const width: int
    const height: int
    const players: seq<PlayerRecord>
    const asteroids: seq<Asteroid>
    var currentPlayerIndex: nat
    var activePlayer: Spaceship
    var startTime: int
    var result: Option<Announcement>

    /** The ships the records own. */
    ghost function Ships(): set<Spaceship>
    {
      set r | r in players :: r.player
    }

    /** The objects are all distinct and the active ship is the current
        record's ship. */
    ghost predicate Shape()
      reads this
    {
      && (forall i, j :: 0 <= i < j < |players| ==> players[i] != players[j] && players[i].player != players[j].player)
      && (forall i, j :: 0 <= i < j < |asteroids| ==> asteroids[i] != asteroids[j])
      && currentPlayerIndex < |players|
      && activePlayer == players[currentPlayerIndex].player
      && activePlayer in Ships()
    }

    ghost function PlayersView(): seq<Engine.Record>
      reads players, Ships()
    {
      seq(|players|, i reads players, Ships() requires 0 <= i < |players| =>
            Engine.Record(players[i].player.View(), players[i].alive, players[i].survivalTime))
    }

    ghost function AsteroidsView(): seq<Rock>
      reads asteroids
    {
      seq(|asteroids|, k reads asteroids requires 0 <= k < |asteroids| => asteroids[k].View())
    }

    /** The game state as an Engine value. */
    ghost function View(): Engine.World
      reads this, players, Ships(), asteroids
    {
      Engine.World(width, height, PlayersView(), AsteroidsView(), currentPlayerIndex, startTime, result)
    }

    ghost predicate Valid()
      reads this, players, Ships(), asteroids
    {
      Shape() && Engine.Inv(View())
    }


    /** `initializeGame`: a fresh roster of 2 or 3 records, 5 asteroids at the
        random positions `xs`, `ys`, the turn clock started at `now` and the
        first player active. */
    constructor (canvasWidth: int, canvasHeight: int, numPlayers: int,
                 xs: seq<int>, ys: seq<int>, now: int)
      requires canvasWidth > 0 && canvasHeight > 0
      requires |xs| == Engine.AsteroidCount && |ys| == Engine.AsteroidCount
      requires forall k :: 0 <= k < Engine.AsteroidCount ==>
                 0 <= xs[k] < canvasWidth && -canvasHeight < ys[k] <= 0
      ensures Valid()
      ensures View() == Engine.Initialize(canvasWidth, canvasHeight, numPlayers, xs, ys, now)
      ensures forall i :: 0 <= i < |players| ==> fresh(players[i])
      ensures fresh(Ships())
      ensures forall k :: 0 <= k < |asteroids| ==> fresh(asteroids[k])
    {
      var roster := NewRoster(numPlayers, canvasHeight);
      var rocks := NewAsteroids(xs, ys);
      width, height := canvasWidth, canvasHeight;
      players, asteroids := roster, rocks;
      startTime := now;
      currentPlayerIndex := 0;
      activePlayer := roster[0].player;
      result := None;
      new;
      ghost var w := Engine.Initialize(canvasWidth, canvasHeight, numPlayers, xs, ys, now);
      assert |PlayersView()| == |w.players|;
      assert forall i :: 0 <= i < |roster| ==> PlayersView()[i] == w.players[i];
      assert AsteroidsView() == w.asteroids;
      Engine.InitializeEstablishesInv(canvasWidth, canvasHeight, numPlayers, xs, ys, now);
    }

    /** `asteroids.forEach(asteroid => asteroid.move(2))`. */
    method MoveAsteroids(rxs: seq<int>)
      requires Shape() && |rxs| == |asteroids|
      modifies asteroids
      ensures View() == Engine.MoveAsteroids(old(View()), rxs)
    {
      for k := 0 to |asteroids|
        invariant forall j :: 0 <= j < k ==>
                    asteroids[j].View() == MoveRock(old(asteroids[j].View()), Engine.AsteroidSpeed, height, rxs[j])
        invariant forall j :: k <= j < |asteroids| ==> asteroids[j].View() == old(asteroids[j].View())
      {
        asteroids[k].Move(Engine.AsteroidSpeed, height, rxs[k]);
      }
    }

    /** `activePlayer.updateSurvivalTime()`, against the turn's start time. */
    method RefreshActiveSurvival(now: int)
      requires Shape()
      modifies activePlayer
      ensures View() == Engine.UpdateSurvivalTime(old(View()), now)
    {
      activePlayer.UpdateSurvivalTime(now, startTime);
      assert forall i :: 0 <= i < |players| && i != currentPlayerIndex ==>
               players[i].player.View() == old(players[i].player.View());
      assert PlayersView() == Engine.UpdateSurvivalTime(old(View()), now).players;
    }

    /** `endGame`: the reduction over the records and the announcement; the
        interval is cleared, which Tick models by doing nothing afterwards. */
    method EndGame()
      requires |players| > 0
      modifies this`result
      ensures result == Some(Announce(Engine.Times(PlayersView())))
      ensures View() == Engine.EndGame(old(View()))
    {
      var times := seq(|players|, i reads players requires 0 <= i < |players| => players[i].survivalTime);
      assert times == Engine.Times(PlayersView());
      var w := WinnerIndex(times);
      result := Some(Announcement(w + 1, players[w].survivalTime));
      assert PlayersView() == old(PlayersView());
      assert result == Some(Announce(times));
    }

    /** `handleDeath`: the next player's ship becomes active and its turn clock
        starts now, or the game ends. */
    method HandleDeath(now: int)
      requires Shape()
      modifies this
      ensures Shape()
      ensures View() == Engine.HandleDeath(old(View()), now)
    {
      if currentPlayerIndex < |players| - 1 {
        currentPlayerIndex := currentPlayerIndex + 1;
        activePlayer := players[currentPlayerIndex].player;
        startTime := now;
      } else {
        EndGame();
        assert PlayersView() == old(PlayersView()) && AsteroidsView() == old(AsteroidsView());
      }
    }

    /** `checkCollisions`: test the active ship against the asteroids in order
        and, on the first overlap, kill the ship and its record, freeze the
        record's time and hand the turn on. */
    method CheckCollisions(now: int)
      requires Shape()
      modifies this, players, Ships()
      ensures Shape()
      ensures View() == Engine.CheckCollisions(old(View()), now)
    {
      for k := 0 to |asteroids|
        invariant unchanged(this) && unchanged(players) && unchanged(Ships())
        invariant forall j :: 0 <= j < k ==> !Overlaps(activePlayer.View(), asteroids[j].View())
      {
        var a := asteroids[k];
        if activePlayer.x < a.x + a.size && activePlayer.x + activePlayer.width > a.x &&
           activePlayer.y < a.y + a.size && activePlayer.y + activePlayer.height > a.y
        {
          assert AsteroidsView()[k] == a.View();
          assert FirstHit(activePlayer.View(), AsteroidsView()) == Some(k);
          activePlayer.alive := false;
          players[currentPlayerIndex].alive := false;
          players[currentPlayerIndex].survivalTime := activePlayer.survivalTime;
          assert forall i :: 0 <= i < |players| && i != currentPlayerIndex ==>
                   players[i].player.View() == old(players[i].player.View());
          assert PlayersView() == Engine.MarkDead(old(View())).players;
          HandleDeath(now);
          break;
        }
      }
    }

    /** `updateGame` without the timer display: move the asteroids, refresh the
        active ship's survival time, then test for collisions. */
    method UpdateGame(now: int, rxs: seq<int>)
      requires Shape() && |rxs| == |asteroids|
      modifies this, players, Ships(), asteroids
      ensures Shape()
      ensures View() == Engine.UpdateGame(old(View()), now, rxs)
    {
      MoveAsteroids(rxs);
      RefreshActiveSurvival(now);
      CheckCollisions(now);
    }

    /** One callback of the 60 Hz interval; once the game is over the interval
        has been cleared and nothing runs. */
    method Tick(now: int, rxs: seq<int>)
      requires Valid() && Engine.Columns(View(), rxs)
      modifies this, players, Ships(), asteroids
      ensures Valid()
      ensures View() == Engine.Tick(old(View()), now, rxs)
    {
      if result.None? {
        UpdateGame(now, rxs);
      }
      Engine.TickInv(old(View()), now, rxs);
    }

    /** The `keydown` listener: an arrow key moves the active ship by 10 pixels,
        only while it is alive. */
    method KeyDown(key: string)
      requires Valid()
      modifies activePlayer
      ensures Valid()
      ensures View() == Engine.KeyDown(old(View()), key)
    {
      var delta := Engine.KeyDelta(key);
      if activePlayer.alive && delta.Some? {
        activePlayer.Move(delta.value.0, delta.value.1);
      }
      assert AsteroidsView() == old(AsteroidsView());
      assert forall i :: 0 <= i < |players| && i != currentPlayerIndex ==>
               players[i].player.View() == old(players[i].player.View());
      assert PlayersView() == Engine.KeyDown(old(View()), key).players;
      Engine.KeyDownFacts(old(View()), key);
    }
  }
}
