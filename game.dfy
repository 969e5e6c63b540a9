/** The game page's state as one object whose methods update its fields in
    place, as the event handlers and the animation loop do. Each method that
    changes the state is proved to move it exactly as the matching function
    of SnakeRules does; the handlers (StartGame, SteerTo, KeyDown, TouchEnd,
    Update, GameLoop) also keep the invariant SnakeRules.Playing. */
module SnakeGame {
  import opened SnakeRules

  class Game {
    var snake: seq<Cell>
    var velocity: Vel
    var nextVelocity: Vel
    var food: Cell
    var score: nat
    var highScore: nat
    var isGameRunning: bool
    var lastTime: int
    const tileCountX: int
    const tileCountY: int

    /** The fields, as a value of the rules' state type. */
    function Snapshot(): World
      reads this
    {
      World(snake, velocity, nextVelocity, food, score, highScore,
            isGameRunning, lastTime, tileCountX, tileCountY)
    }

    ghost predicate Valid()
      reads this
    {
      Playing(Snapshot())
    }

    /** The page before the first start; the grid size and the stored best
        score are given by the page. */
    constructor (tileCountX: int, tileCountY: int, storedHighScore: nat)
      requires SpawnFits(tileCountX, tileCountY)
      ensures Valid()
      ensures Snapshot() == Initial(tileCountX, tileCountY, storedHighScore)
    {
      this.tileCountX := tileCountX;
      this.tileCountY := tileCountY;
      snake := [];
      velocity := Vel(0, 0);
      nextVelocity := Vel(0, 0);
      food := Cell(5, 5);
      score := 0;
      highScore := storedHighScore;
      isGameRunning := false;
      lastTime := 0;
      new;
      assert Snapshot() == Initial(tileCountX, tileCountY, storedHighScore);
    }

    /** Whether the cell is one of the body's cells. */
    method Occupies(c: Cell) returns (hit: bool)
      ensures hit <==> c in snake
    {
      var i := 0;
      while i < |snake|
        invariant 0 <= i <= |snake|
        invariant c !in snake[..i]
      {
        if snake[i] == c {
          return true;
        }
        i := i + 1;
      }
      assert snake[..i] == snake;
      return false;
    }

    /** Row-major scan of the grid for the first cell off the body. */
    method FreeCell() returns (r: Option<Cell>)
      ensures r == ScanFrom(snake, tileCountX, tileCountY, 0, 0)
      ensures r.Some? ==> InBounds(r.value, tileCountX, tileCountY) && r.value !in snake
    {
      var y := 0;
      while y < tileCountY
        invariant 0 <= y
        invariant ScanFrom(snake, tileCountX, tileCountY, 0, 0) == ScanFrom(snake, tileCountX, tileCountY, 0, y)
      {
        var x := 0;
        while x < tileCountX
          invariant 0 <= x
          invariant ScanFrom(snake, tileCountX, tileCountY, 0, 0) == ScanFrom(snake, tileCountX, tileCountY, x, y)
        {
          var taken := Occupies(Cell(x, y));
          if !taken {
            return Some(Cell(x, y));
          }
          x := x + 1;
        }
        y := y + 1;
      }
      return None;
    }

    /** Draws cells until one is off the body; when the draws run out, the
        first free cell of the grid; when there is none, the food stays. */
    method PlaceFood(picks: seq<Cell>)
      requires Draws(picks, tileCountX, tileCountY)
      modifies this`food
      ensures food == match Placement(snake, tileCountX, tileCountY, picks)
                      case Some(c) => c
                      case None => old(food)
    {
      var i := 0;
      while i < |picks|
        invariant 0 <= i <= |picks|
        invariant Draws(picks[i..], tileCountX, tileCountY)
        invariant Placement(snake, tileCountX, tileCountY, picks)
               == Placement(snake, tileCountX, tileCountY, picks[i..])
        invariant food == old(food)
      {
        var taken := Occupies(picks[i]);
        if !taken {
          food := picks[i];
          return;
        }
        assert picks[i..][1..] == picks[i + 1..];
        i := i + 1;
      }
      var free := FreeCell();
      if free.Some? {
        food := free.value;
      }
    }

    method StartGame(now: int, picks: seq<Cell>)
      requires Valid()
      requires Draws(picks, tileCountX, tileCountY)
      modifies this
      ensures Valid()
      ensures Snapshot() == Begin(old(Snapshot()), now, picks)
    {
      BeginIsPlaying(Snapshot(), now, picks);
      snake := [Cell(10, 10), Cell(10, 11), Cell(10, 12)];
      velocity := Vel(0, -1);
      nextVelocity := Vel(0, -1);
      score := 0;
      isGameRunning := true;
      PlaceFood(picks);
      lastTime := now;
    }

    method GameOver()
      modifies this`isGameRunning, this`highScore
      ensures Snapshot() == EndGame(old(Snapshot()))
    {
      isGameRunning := false;
      if score > highScore {
        highScore := score;
      }
    }

    /** The guard both input handlers put in front of an intent: it is
        written into the pending slot unless the applied velocity already
        has the opposite sign on that axis. */
    method SteerTo(d: Dir)
      requires Valid() && isGameRunning
      modifies this`nextVelocity
      ensures Valid()
      ensures Snapshot() == Steer(old(Snapshot()), d)
    {
      SteerKeepsPlaying(Snapshot(), d);
      match d
      case Left => if velocity.x != 1 { nextVelocity := Vel(-1, 0); }
      case Up => if velocity.y != 1 { nextVelocity := Vel(0, -1); }
      case Right => if velocity.x != -1 { nextVelocity := Vel(1, 0); }
      case Down => if velocity.y != -1 { nextVelocity := Vel(0, 1); }
    }

    /** The keyboard handler. */
    method KeyDown(key: string)
      requires Valid()
      modifies this`nextVelocity
      ensures Valid()
      ensures Snapshot() == KeyPress(old(Snapshot()), key)
    {
      if !isGameRunning {
        return;
      }
      var intent := KeyIntent(key);
      if intent.Some? {
        SteerTo(intent.value);
      }
    }

    /** The end of a swipe by (dx, dy) pixels. */
    method TouchEnd(dx: int, dy: int)
      requires Valid()
      modifies this`nextVelocity
      ensures Valid()
      ensures Snapshot() == Swipe(old(Snapshot()), dx, dy)
    {
      if !isGameRunning {
        return;
      }
      var d := SwipeIntent(dx, dy);
      SteerTo(d);
    }

    /** One tick of the simulation. */
    method Update(picks: seq<Cell>)
      requires Valid() && isGameRunning
      requires Draws(picks, tileCountX, tileCountY)
      modifies this
      ensures Valid()
      ensures Snapshot() == Tick(old(Snapshot()), picks)
    {
      ghost var s := Snapshot();
      TickKeepsPlaying(s, picks);
      velocity := nextVelocity;
      var head := Cell(snake[0].x + velocity.x, snake[0].y + velocity.y);
      assert head == NextHead(s.snake, s.nextVelocity);
      if head.x < 0 || head.x >= tileCountX || head.y < 0 || head.y >= tileCountY {
        GameOver();
        assert Snapshot() == Tick(s, picks);
        return;
      }
      var hit := Occupies(head);
      if hit {
        GameOver();
        assert Snapshot() == Tick(s, picks);
        return;
      }
      snake := [head] + snake;
      if head == food {
        score := score + 1;
        PlaceFood(picks);
        assert Snapshot() == WithFood(s.(velocity := s.nextVelocity, snake := [head] + s.snake, score := s.score + 1), picks);
      } else {
        snake := snake[..|snake| - 1];
      }
      assert Snapshot() == Tick(s, picks);
    }

    /** The animation-frame callback, reduced to its tick decision. */
    method GameLoop(timestamp: int, picks: seq<Cell>)
      requires Valid()
      requires Draws(picks, tileCountX, tileCountY)
      modifies this
      ensures Valid()
      ensures Snapshot() == Frame(old(Snapshot()), timestamp, picks)
    {
      if !isGameRunning {
        return;
      }
      var deltaTime := timestamp - lastTime;
      if deltaTime >= GameSpeed {
        lastTime := timestamp;
        Update(picks);
      }
    }
  }
}
