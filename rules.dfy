/** The rules of the snake game, as values: grid cells and velocities, the
    classification of key presses and swipes into direction intents, the
    placement of food, and the state transitions of the game (start, steer,
    tick, game over, animation frame). The class in game.dfy holds the same
    state in mutable fields and is proved to follow these functions. */
module SnakeRules {

  datatype Option<T> = None | Some(value: T)

  /** A grid cell; (0, 0) is the top-left corner and y grows downwards. */
  datatype Cell = Cell(x: int, y: int)

  /** A velocity, in cells per tick. */
  datatype Vel = Vel(x: int, y: int)

  /** The four direction intents an input event can express. */
  datatype Dir = Left | Up | Right | Down

  /** Milliseconds that must pass between two ticks. */
  const GameSpeed: int := 100

  /** The body every start places, head first. */
  const Spawn: seq<Cell> := [Cell(10, 10), Cell(10, 11), Cell(10, 12)]

  /** The whole state of one game page: the snake, the applied and the
      pending velocity, the food, the session and the grid size. */
  datatype World = World(
    snake: seq<Cell>,
    velocity: Vel,
    nextVelocity: Vel,
    food: Cell,
    score: nat,
    highScore: nat,
    isGameRunning: bool,
    lastTime: int,
    tileCountX: int,
    tileCountY: int)

  // ----- Grid and body ------------------------------------------------------

  predicate InBounds(c: Cell, w: int, h: int) {
    0 <= c.x < w && 0 <= c.y < h
  }

  ghost predicate BodyInBounds(body: seq<Cell>, w: int, h: int) {
    forall i :: 0 <= i < |body| ==> InBounds(body[i], w, h)
  }

  ghost predicate Distinct(body: seq<Cell>) {
    forall i, j :: 0 <= i < j < |body| ==> body[i] != body[j]
  }

  /** Every cell of the grid is covered by the body. */
  ghost predicate NoFreeCell(body: seq<Cell>, w: int, h: int) {
    forall c :: InBounds(c, w, h) ==> c in body
  }

  /** The spawn body fits in a grid of this size. */
  predicate SpawnFits(w: int, h: int) {
    w > 10 && h > 12
  }

  /** Every draw of the random source lies in the grid, as
      Math.floor(Math.random() * n) lies in [0, n). */
  ghost predicate Draws(picks: seq<Cell>, w: int, h: int) {
    forall i :: 0 <= i < |picks| ==> InBounds(picks[i], w, h)
  }

  // ----- Directions ---------------------------------------------------------

  function Vector(d: Dir): Vel {
    match d
    case Left => Vel(-1, 0)
    case Up => Vel(0, -1)
    case Right => Vel(1, 0)
    case Down => Vel(0, 1)
  }

  function Reverse(v: Vel): Vel {
    Vel(-v.x, -v.y)
  }

  predicate IsUnit(v: Vel) {
    (v.x == 0 && (v.y == 1 || v.y == -1)) || (v.y == 0 && (v.x == 1 || v.x == -1))
  }

  /** The guard the input handlers put in front of each intent: one
      coordinate of the applied velocity is compared with the opposite sign. */
  predicate Admits(applied: Vel, d: Dir) {
    match d
    case Left => applied.x != 1
    case Up => applied.y != 1
    case Right => applied.x != -1
    case Down => applied.y != -1
  }

  /** For a unit velocity the coordinate guard is exactly "not a reversal". */
  lemma AdmitsIffNotReverse(applied: Vel, d: Dir)
    requires IsUnit(applied)
    ensures Admits(applied, d) <==> Vector(d) != Reverse(applied)
  {
  }

  lemma UnitIsNotItsReverse(v: Vel)
    requires IsUnit(v)
    ensures v != Reverse(v)
  {
    assert v.x != -v.x || v.y != -v.y;
  }

  /** The keys the keyboard handler reacts to: arrows and WASD in both cases. */
  function KeyIntent(key: string): (r: Option<Dir>)
    ensures r == Some(Left) <==> key in {"ArrowLeft", "a", "A"}
    ensures r == Some(Up) <==> key in {"ArrowUp", "w", "W"}
    ensures r == Some(Right) <==> key in {"ArrowRight", "d", "D"}
    ensures r == Some(Down) <==> key in {"ArrowDown", "s", "S"}
  {
    if key == "ArrowLeft" || key == "a" || key == "A" then Some(Left)
    else if key == "ArrowUp" || key == "w" || key == "W" then Some(Up)
    else if key == "ArrowRight" || key == "d" || key == "D" then Some(Right)
    else if key == "ArrowDown" || key == "s" || key == "S" then Some(Down)
    else None
  }

  function Abs(n: int): nat {
    if n < 0 then -n else n
  }

  /** How far a displacement goes in the direction of d. */
  function Along(d: Dir, dx: int, dy: int): int {
    Vector(d).x * dx + Vector(d).y * dy
  }

  /** The direction of a swipe by (dx, dy) screen pixels: the direction the
      gesture went furthest along, a tie between the axes counting as
      vertical, and no vertical movement at all counting as up. */
  function SwipeIntent(dx: int, dy: int): (d: Dir)
    ensures forall e :: Along(e, dx, dy) <= Along(d, dx, dy)
    ensures Along(d, dx, dy) == if Abs(dx) > Abs(dy) then Abs(dx) else Abs(dy)
    ensures d in {Left, Right} <==> Abs(dx) > Abs(dy)
    ensures Abs(dx) <= Abs(dy) && dy == 0 ==> d == Up
  {
    if Abs(dx) > Abs(dy) then (if dx > 0 then Right else Left)
    else if dy > 0 then Down else Up
  }

  // ----- Food placement -----------------------------------------------------

  /** Row-major scan for the first free cell at or after (x, y). */
  function ScanFrom(body: seq<Cell>, w: int, h: int, x: int, y: int): (r: Option<Cell>)
    requires 0 <= x && 0 <= y
    ensures r.Some? ==> InBounds(r.value, w, h) && r.value !in body
    ensures r.None? ==> forall c :: InBounds(c, w, h) && (c.y > y || (c.y == y && c.x >= x)) ==> c in body
    decreases h - y, w - x
  {
    if y >= h then None
    else if x >= w then ScanFrom(body, w, h, 0, y + 1)
    else if Cell(x, y) !in body then Some(Cell(x, y))
    else ScanFrom(body, w, h, x + 1, y)
  }

  /** Where food goes: the first draw that is not on the body; when every draw
      is taken, the first free cell of the grid; None when the body covers
      the whole grid. */
  function Placement(body: seq<Cell>, w: int, h: int, picks: seq<Cell>): (r: Option<Cell>)
    requires Draws(picks, w, h)
    ensures r.Some? ==> InBounds(r.value, w, h) && r.value !in body
    ensures r.None? <==> NoFreeCell(body, w, h)
    decreases |picks|
  {
    if |picks| == 0 then ScanFrom(body, w, h, 0, 0)
    else if picks[0] !in body then Some(picks[0])
    else Placement(body, w, h, picks[1..])
  }

  /** The draws are tried in order: the first draw off the body is the one
      taken, whatever the draws after it. */
  lemma {:induction false} PlacementTakesFirstFreeDraw(body: seq<Cell>, w: int, h: int, picks: seq<Cell>, k: nat)
    requires Draws(picks, w, h)
    requires k < |picks| && picks[k] !in body
    requires forall j :: 0 <= j < k ==> picks[j] in body
    ensures Placement(body, w, h, picks) == Some(picks[k])
  {
    if k > 0 {
      assert picks[0] in body;
      PlacementTakesFirstFreeDraw(body, w, h, picks[1..], k - 1);
    }
  }

  /** The grid scan is used only when every draw lies on the body. */
  lemma {:induction false} PlacementScansWhenAllDrawsTaken(body: seq<Cell>, w: int, h: int, picks: seq<Cell>)
    requires Draws(picks, w, h)
    requires forall j :: 0 <= j < |picks| ==> picks[j] in body
    ensures Placement(body, w, h, picks) == ScanFrom(body, w, h, 0, 0)
    decreases |picks|
  {
    if picks != [] {
      assert picks[0] in body;
      PlacementScansWhenAllDrawsTaken(body, w, h, picks[1..]);
    }
  }

  ghost predicate FoodPlaced(food: Cell, body: seq<Cell>, w: int, h: int) {
    (InBounds(food, w, h) && food !in body) || NoFreeCell(body, w, h)
  }

  // ----- State transitions --------------------------------------------------

  function WithFood(s: World, picks: seq<Cell>): World
    requires Draws(picks, s.tileCountX, s.tileCountY)
  {
    match Placement(s.snake, s.tileCountX, s.tileCountY, picks)
    case Some(c) => s.(food := c)
    case None => s
  }

  function Begin(s: World, now: int, picks: seq<Cell>): World
    requires Draws(picks, s.tileCountX, s.tileCountY)
  {
    var s1 := s.(snake := Spawn, velocity := Vector(Up), nextVelocity := Vector(Up),
                 score := 0, isGameRunning := true);
    WithFood(s1, picks).(lastTime := now)
  }

  function Steer(s: World, d: Dir): World {
    if !s.isGameRunning then s
    else if Admits(s.velocity, d) then s.(nextVelocity := Vector(d))
    else s
  }

  function KeyPress(s: World, key: string): World {
    match KeyIntent(key)
    case None => s
    case Some(d) => Steer(s, d)
  }

  function Swipe(s: World, dx: int, dy: int): World {
    Steer(s, SwipeIntent(dx, dy))
  }

  function EndGame(s: World): World {
    s.(isGameRunning := false,
       highScore := if s.score > s.highScore then s.score else s.highScore)
  }

  function NextHead(body: seq<Cell>, v: Vel): Cell
    requires body != []
  {
    Cell(body[0].x + v.x, body[0].y + v.y)
  }

  /** The candidate head leaves the grid or lands on the pre-move body. */
  predicate Collides(head: Cell, body: seq<Cell>, w: int, h: int) {
    !InBounds(head, w, h) || head in body
  }

  /** One tick of the simulation. */
  function Tick(s: World, picks: seq<Cell>): World
    requires s.snake != [] && Draws(picks, s.tileCountX, s.tileCountY)
  {
    var s1 := s.(velocity := s.nextVelocity);
    var head := NextHead(s.snake, s1.velocity);
    if Collides(head, s.snake, s.tileCountX, s.tileCountY) then EndGame(s1)
    else if head == s.food then WithFood(s1.(snake := [head] + s.snake, score := s.score + 1), picks)
    else s1.(snake := [head] + s.snake[..|s.snake| - 1])
  }

  /** One animation-frame callback: at most one tick, and only once
      GameSpeed milliseconds have passed since the last one. */
  function Frame(s: World, timestamp: int, picks: seq<Cell>): World
    requires s.isGameRunning ==> s.snake != []
    requires Draws(picks, s.tileCountX, s.tileCountY)
  {
    if !s.isGameRunning then s
    else if timestamp - s.lastTime >= GameSpeed then Tick(s.(lastTime := timestamp), picks)
    else s
  }

  // ----- The invariant of a game in progress --------------------------------

  /** What holds of every reachable state: the grid holds the spawn, the
      length of a started snake is its score plus three, and while the game
      runs the body is in bounds and self-disjoint, both velocities are unit
      vectors, the pending one never reverses the applied one, and the food
      lies on a free cell whenever one exists. */
  ghost predicate Playing(s: World) {
    && SpawnFits(s.tileCountX, s.tileCountY)
    && (s.snake != [] ==> |s.snake| == s.score + 3)
    && (s.isGameRunning ==>
          && s.snake != []
          && BodyInBounds(s.snake, s.tileCountX, s.tileCountY)
          && Distinct(s.snake)
          && IsUnit(s.velocity)
          && IsUnit(s.nextVelocity)
          && s.nextVelocity != Reverse(s.velocity)
          && FoodPlaced(s.food, s.snake, s.tileCountX, s.tileCountY))
  }

  /** Pushing a free in-bounds head keeps the body in bounds and
      self-disjoint, with or without dropping the tail. */
  lemma PushKeepsBody(body: seq<Cell>, head: Cell, w: int, h: int)
    requires BodyInBounds(body, w, h) && Distinct(body)
    requires InBounds(head, w, h) && head !in body
    ensures BodyInBounds([head] + body, w, h) && Distinct([head] + body)
    ensures body != [] ==>
      BodyInBounds([head] + body[..|body| - 1], w, h) && Distinct([head] + body[..|body| - 1])
  {
    var grown := [head] + body;
    forall i, j | 0 <= i < j < |grown| ensures grown[i] != grown[j] {
      if i == 0 {
        assert grown[j] == body[j - 1];
      } else {
        assert grown[i] == body[i - 1] && grown[j] == body[j - 1];
      }
    }
    if body != [] {
      var moved := [head] + body[..|body| - 1];
      assert moved == grown[..|grown| - 1];
    }
  }

  lemma BeginIsPlaying(s: World, now: int, picks: seq<Cell>)
    requires SpawnFits(s.tileCountX, s.tileCountY)
    requires Draws(picks, s.tileCountX, s.tileCountY)
    ensures var r := Begin(s, now, picks);
      && Playing(r) && r.isGameRunning && r.snake == Spawn && r.score == 0
      && r.velocity == Vector(Up) && r.nextVelocity == Vector(Up) && r.lastTime == now
      && r.highScore == s.highScore
      && InBounds(r.food, r.tileCountX, r.tileCountY) && r.food !in r.snake
  {
    assert InBounds(Cell(0, 0), s.tileCountX, s.tileCountY) && Cell(0, 0) !in Spawn;
  }

  lemma SteerKeepsPlaying(s: World, d: Dir)
    requires Playing(s)
    ensures Playing(Steer(s, d))
  {
    if s.isGameRunning && Admits(s.velocity, d) {
      AdmitsIffNotReverse(s.velocity, d);
    }
  }

  lemma KeyPressKeepsPlaying(s: World, key: string)
    requires Playing(s)
    ensures Playing(KeyPress(s, key))
  {
    match KeyIntent(key)
    case None =>
    case Some(d) => SteerKeepsPlaying(s, d);
  }

  /** The reversal law: while the game runs, an intent that reverses the
      applied velocity leaves the pending one unchanged and any other intent
      replaces it; nothing else changes. While it does not run, nothing does. */
  lemma SteerReversalLaw(s: World, d: Dir)
    requires Playing(s)
    ensures !s.isGameRunning ==> Steer(s, d) == s
    ensures s.isGameRunning && Vector(d) == Reverse(s.velocity) ==> Steer(s, d) == s
    ensures s.isGameRunning && Vector(d) != Reverse(s.velocity) ==>
      Steer(s, d) == s.(nextVelocity := Vector(d))
  {
    if s.isGameRunning {
      AdmitsIffNotReverse(s.velocity, d);
    }
  }

  /** Repeating an intent before the next tick has the effect of giving it once. */
  lemma SteerIdempotent(s: World, d: Dir)
    ensures Steer(Steer(s, d), d) == Steer(s, d)
  {
  }

  lemma EndGameKeepsBest(s: World)
    requires Playing(s)
    ensures var r := EndGame(s);
      && Playing(r) && !r.isGameRunning
      && r.highScore >= s.highScore && r.highScore >= s.score
      && (r.highScore == s.highScore || r.highScore == s.score)
      && r.snake == s.snake && r.food == s.food && r.score == s.score
  {
  }

  /** What a tick does: the pending velocity becomes the applied one; the game
      ends exactly when the candidate head leaves the grid or lands on the
      pre-move body (tail included), freezing body, food and score and
      recording the best score; eating grows the body and the score by one;
      any other move shifts the body by one cell. */
  lemma TickOutcome(s: World, picks: seq<Cell>)
    requires Playing(s) && s.isGameRunning
    requires Draws(picks, s.tileCountX, s.tileCountY)
    ensures var r := Tick(s, picks);
      var head := Cell(s.snake[0].x + s.nextVelocity.x, s.snake[0].y + s.nextVelocity.y);
      && r.velocity == s.nextVelocity && r.nextVelocity == s.nextVelocity
      && (!r.isGameRunning <==> !InBounds(head, s.tileCountX, s.tileCountY) || head in s.snake)
      && (!r.isGameRunning ==>
            r.snake == s.snake && r.food == s.food && r.score == s.score
            && r.highScore == (if s.score > s.highScore then s.score else s.highScore))
      && (r.isGameRunning && head == s.food ==>
            |r.snake| == |s.snake| + 1 && r.score == s.score + 1
            && r.snake[0] == head && r.snake[1..] == s.snake
            && FoodPlaced(r.food, r.snake, r.tileCountX, r.tileCountY))
      && (r.isGameRunning && head != s.food ==>
            |r.snake| == |s.snake| && r.score == s.score && r.food == s.food
            && r.snake[0] == head && r.snake[1..] == s.snake[..|s.snake| - 1])
      && r.highScore >= s.highScore
  {
  }

  /** The growth law: a tick changes the length and the score together, by
      exactly 0 or exactly 1. */
  lemma TickGrowthLaw(s: World, picks: seq<Cell>)
    requires Playing(s) && s.isGameRunning
    requires Draws(picks, s.tileCountX, s.tileCountY)
    ensures var r := Tick(s, picks);
      (|r.snake| == |s.snake| && r.score == s.score)
      || (|r.snake| == |s.snake| + 1 && r.score == s.score + 1)
  {
  }

  /** A tick that leaves the game running keeps the body in bounds and
      self-disjoint, the food off the body, and the pending velocity off the
      reverse of the applied one. */
  lemma TickKeepsPlaying(s: World, picks: seq<Cell>)
    requires Playing(s) && s.isGameRunning
    requires Draws(picks, s.tileCountX, s.tileCountY)
    ensures Playing(Tick(s, picks))
  {
    var w, h := s.tileCountX, s.tileCountY;
    var head := NextHead(s.snake, s.nextVelocity);
    var s1 := s.(velocity := s.nextVelocity);
    if Collides(head, s.snake, w, h) {
      assert Tick(s, picks) == EndGame(s1);
      EndGameKeepsBest(s);
    } else if head == s.food {
      var g := s1.(snake := [head] + s.snake, score := s.score + 1);
      assert Tick(s, picks) == WithFood(g, picks);
      PushKeepsBody(s.snake, head, w, h);
      UnitIsNotItsReverse(s.nextVelocity);
      EatKeepsPlaying(g, picks);
    } else {
      var m := s1.(snake := [head] + s.snake[..|s.snake| - 1]);
      assert Tick(s, picks) == m;
      PushKeepsBody(s.snake, head, w, h);
      MoveKeepsFood(s.snake, head, s.food, w, h);
      assert |m.snake| == |s.snake|;
      assert BodyInBounds(m.snake, w, h) && Distinct(m.snake);
      assert FoodPlaced(m.food, m.snake, w, h);
      UnitIsNotItsReverse(s.nextVelocity);
      assert Playing(m);
    }
  }

  /** After eating, the grown body is in bounds and self-disjoint, and
      re-placing the food puts it on a free cell whenever one exists. */
  lemma EatKeepsPlaying(g: World, picks: seq<Cell>)
    requires SpawnFits(g.tileCountX, g.tileCountY)
    requires g.snake != [] && |g.snake| == g.score + 3
    requires BodyInBounds(g.snake, g.tileCountX, g.tileCountY) && Distinct(g.snake)
    requires IsUnit(g.velocity) && g.nextVelocity == g.velocity && g.isGameRunning
    requires Draws(picks, g.tileCountX, g.tileCountY)
    ensures Playing(WithFood(g, picks))
  {
  }

  /** A move that does not eat keeps the food off the shifted body. */
  lemma MoveKeepsFood(body: seq<Cell>, head: Cell, food: Cell, w: int, h: int)
    requires body != [] && FoodPlaced(food, body, w, h)
    requires InBounds(head, w, h) && head !in body && head != food
    ensures FoodPlaced(food, [head] + body[..|body| - 1], w, h)
  {
    var moved := [head] + body[..|body| - 1];
    assert !NoFreeCell(body, w, h);
    forall k | 0 <= k < |moved| ensures moved[k] != food {
      if k > 0 { assert moved[k] == body[k - 1]; }
    }
  }

  /** Moving into the cell the tail is about to vacate still ends the game:
      the collision test runs against the pre-move body, tail included. */
  lemma TailCellIsFatal(s: World, picks: seq<Cell>)
    requires Playing(s) && s.isGameRunning
    requires Draws(picks, s.tileCountX, s.tileCountY)
    requires NextHead(s.snake, s.nextVelocity) == s.snake[|s.snake| - 1]
    ensures !Tick(s, picks).isGameRunning && Tick(s, picks).snake == s.snake
  {
  }

  lemma FrameKeepsPlaying(s: World, timestamp: int, picks: seq<Cell>)
    requires Playing(s)
    requires Draws(picks, s.tileCountX, s.tileCountY)
    ensures Playing(Frame(s, timestamp, picks))
  {
    if s.isGameRunning && timestamp - s.lastTime >= GameSpeed {
      TickKeepsPlaying(s.(lastTime := timestamp), picks);
    }
  }

  /** No catch-up: a frame that ticks sets the reference time to its own
      timestamp, however late it came, so no further tick happens until
      GameSpeed milliseconds after that frame. */
  lemma FrameNoCatchUp(s: World, t: int, later: int, picks: seq<Cell>, picks': seq<Cell>)
    requires Playing(s) && s.isGameRunning && t - s.lastTime >= GameSpeed
    requires Draws(picks, s.tileCountX, s.tileCountY)
    requires Draws(picks', s.tileCountX, s.tileCountY)
    requires later < t + GameSpeed
    ensures var r := Frame(s, t, picks);
      r.lastTime == t && Frame(r, later, picks') == r
  {
  }

  /** A frame that does not tick changes nothing. */
  lemma FrameWaits(s: World, timestamp: int, picks: seq<Cell>)
    requires Playing(s)
    requires Draws(picks, s.tileCountX, s.tileCountY)
    requires !s.isGameRunning || timestamp - s.lastTime < GameSpeed
    ensures Frame(s, timestamp, picks) == s
  {
  }

  // ----- Runs of the page ---------------------------------------------------

  /** The events that drive the page: a click on the start button, a key
      press, the end of a swipe and an animation-frame callback. Each event
      that may place food carries the random draws it consumes. */
  datatype Event =
    | StartClick(now: int, startPicks: seq<Cell>)
    | KeyDownEvent(key: string)
    | TouchEndEvent(dx: int, dy: int)
    | AnimationFrame(timestamp: int, framePicks: seq<Cell>)

  ghost predicate WellDrawn(e: Event, w: int, h: int) {
    match e
    case StartClick(_, p) => Draws(p, w, h)
    case AnimationFrame(_, p) => Draws(p, w, h)
    case _ => true
  }

  /** The state after one event; the invariant is kept. */
  function Handle(s: World, e: Event): (r: World)
    requires Playing(s) && WellDrawn(e, s.tileCountX, s.tileCountY)
    ensures Playing(r)
    ensures r.tileCountX == s.tileCountX && r.tileCountY == s.tileCountY
  {
    match e
    case StartClick(now, p) => BeginIsPlaying(s, now, p); Begin(s, now, p)
    case KeyDownEvent(key) => KeyPressKeepsPlaying(s, key); KeyPress(s, key)
    case TouchEndEvent(dx, dy) => SteerKeepsPlaying(s, SwipeIntent(dx, dy)); Swipe(s, dx, dy)
    case AnimationFrame(t, p) => FrameKeepsPlaying(s, t, p); Frame(s, t, p)
  }

  /** The state after a sequence of events, from a state that satisfies the
      invariant (such as the one before the first start): every state on the
      way satisfies it too, so a running game always has its body in bounds
      and self-disjoint and its food on a free cell whenever one exists. */
  function Run(s: World, events: seq<Event>): (r: World)
    requires Playing(s)
    requires forall i :: 0 <= i < |events| ==> WellDrawn(events[i], s.tileCountX, s.tileCountY)
    ensures Playing(r)
    ensures r.tileCountX == s.tileCountX && r.tileCountY == s.tileCountY
    decreases |events|
  {
    if events == [] then s
    else
      var s1 := Handle(s, events[0]);
      assert forall i :: 0 <= i < |events| - 1 ==> events[1..][i] == events[i + 1];
      Run(s1, events[1..])
  }

  /** The state of the page before the first start. */
  function Initial(tileCountX: int, tileCountY: int, storedHighScore: nat): (r: World)
    requires SpawnFits(tileCountX, tileCountY)
    ensures Playing(r) && !r.isGameRunning && r.snake == []
  {
    World([], Vel(0, 0), Vel(0, 0), Cell(5, 5), 0, storedHighScore, false, 0, tileCountX, tileCountY)
  }
}
