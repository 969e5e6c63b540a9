# Snake game state machine, modelled in Dafny

This project models the game logic of a browser snake game (`game.js`). It covers:

- the page's global game state: the snake body, the applied `velocity` and the pending `nextVelocity`, the food, the score and best score, the running flag, the time of the last tick and the grid size;
- the keyboard handler and the swipe handler, which write direction intents into the pending slot;
- `startGame`, `gameOver`, `placeFood` and the per-tick `update`;
- the tick decision of the animation loop `gameLoop`.

The project has two modules:

- `SnakeRules` (`rules.dfy`) holds the rules as values. It has the datatypes `Cell`, `Vel`, `Dir` and `World`, where `World` holds every field of the page state. It also has one specification function per operation (`Begin`, `Steer`, `KeyPress`, `Swipe`, `Tick`, `EndGame`, `Frame`), the food placement `Placement`, the event stream `Handle`/`Run`, and the lemmas.
- `SnakeGame` (`game.dfy`) holds the class `Game`. Its fields are the global variables of the game, and its methods update them in place as the source does. The loops over the body, the food-drawing loop and the handlers are written as methods. Every method that changes state (`StartGame`, `GameOver`, `PlaceFood`, `SteerTo`, `KeyDown`, `TouchEnd`, `Update`, `GameLoop`) proves that its new state is what the matching specification says. The handler methods (`StartGame`, `SteerTo`, `KeyDown`, `TouchEnd`, `Update`, `GameLoop`) also prove that the invariant `Playing` still holds. `GameOver` and `PlaceFood` are steps inside those handlers and do not carry the invariant. `Occupies` and `FreeCell` only read the state.

`Playing` is the invariant of every reachable state:

- the grid holds the spawn;
- a started snake's length is its score plus three;
- while the game runs:
  - the body is in bounds and its cells are pairwise distinct;
  - both velocities are unit vectors;
  - the pending velocity is never the reverse of the applied one;
  - the food is in bounds and off the body whenever a free cell exists.

`Run` proves that `Playing` holds after any sequence of start clicks, key presses, swipes and animation frames.

Inputs from the browser become parameters:

- timestamps are integers;
- the result of `Math.random()` is a finite sequence of drawn cells (`picks`), each inside the grid;
- the grid size is a constructor argument;
- the stored best score is a constructor argument.

## Model

| member | source | states |
|---|---|---|
| SnakeRules.AdmitsIffNotReverse | game.js:71-86 | for a unit applied velocity, each handler's one-coordinate guard admits an intent exactly when the intent is not the reverse of the applied velocity |
| SnakeRules.KeyIntent | game.js:67-88 | the arrow keys and the a/w/d/s keys in either case map to left/up/right/down; any other key maps to no intent |
| SnakeRules.SwipeIntent | game.js:111-129 | a swipe picks the direction the gesture went furthest along; it is horizontal exactly when abs(dx) > abs(dy), so a tie counts as vertical; no vertical movement on a vertical swipe counts as up |
| SnakeRules.ScanFrom | game.js:174-186 | the deterministic free-cell scan that stands in for endless redrawing: a cell it returns is in bounds and off the body; if it returns nothing, every cell from (x, y) on is on the body |
| SnakeRules.Placement | game.js:172-187 | a placed cell is in bounds and off the body; placement fails exactly when the body covers the whole grid |
| SnakeRules.PlacementTakesFirstFreeDraw | game.js:175-186 | the draws are tried in order: when every draw before draw k lies on the body and draw k does not, draw k is the food cell |
| SnakeRules.PlacementScansWhenAllDrawsTaken | game.js:175-186 | only when every draw lies on the body does placement fall back to the grid scan |
| SnakeRules.PushKeepsBody | game.js:212-222 | pushing a free in-bounds head keeps the body in bounds and pairwise distinct, whether the tail is kept (growth) or popped (move) |
| SnakeRules.MoveKeepsFood | game.js:220-223 | a move that does not reach the food keeps the food off the shifted body |
| SnakeRules.EatKeepsPlaying | game.js:215-218 | after eating, the grown body satisfies the invariant and the re-placed food lies on a free cell if one exists |
| SnakeRules.BeginIsPlaying | game.js:133-152 | start sets the 3-cell spawn, both velocities up, score 0, running, lastTime := now and keeps the best score; the food lands in bounds off the body; the invariant holds |
| SnakeRules.SteerKeepsPlaying | game.js:65-87 | a direction intent keeps the invariant; in particular pending never becomes the reverse of applied |
| SnakeRules.KeyPressKeepsPlaying | game.js:64-89 | a key press keeps the invariant |
| SnakeRules.SteerReversalLaw | game.js:106-129 | intents are ignored while not running; while running, an intent that reverses the applied velocity leaves the state unchanged, and any other intent replaces the pending velocity and nothing else |
| SnakeRules.SteerIdempotent | game.js:71-86 | repeating an intent before a tick has the effect of giving it once |
| SnakeRules.EndGameKeepsBest | game.js:154-163 | game over stops the game, leaves snake, food and score alone, and sets the best score to the larger of the old best and the score |
| SnakeRules.TickOutcome | game.js:189-224 | a tick makes the pending velocity the applied one and leaves the pending one unchanged; the game ends exactly when the candidate head leaves the grid or equals a pre-move body cell, tail included, with snake, food and score unchanged and best = max(best, score); on food, length and score grow by 1, the head is first, the old body follows, and the food is re-placed; otherwise the body shifts by one cell and length, score and food are unchanged |
| SnakeRules.TickGrowthLaw | game.js:212-223 | a tick changes length and score together, by exactly 0 or exactly 1 |
| SnakeRules.TickKeepsPlaying | game.js:189-224 | a tick from a running state satisfying the invariant yields a state satisfying it: body in bounds and distinct, length = score + 3, pending not the reverse of applied, and food in bounds and off the body whenever a free cell exists |
| SnakeRules.TailCellIsFatal | game.js:204-209 | in every running state, a candidate head equal to the current tail cell, which a move would vacate, still ends the game, and the body stays as it was |
| SnakeRules.FrameKeepsPlaying | game.js:268-276 | an animation frame keeps the invariant |
| SnakeRules.FrameNoCatchUp | game.js:271-276 | a frame that ticks sets lastTime to its own timestamp, not to lastTime + 100, so no other tick happens until 100 ms after that frame, however late it came |
| SnakeRules.FrameWaits | game.js:269-276 | a frame while not running, or less than 100 ms after the last tick, changes nothing |
| SnakeRules.Handle | game.js:282-287 | each page event keeps the invariant and the grid size: a start click (wired at line 287), a key press (line 62), a swipe end (line 105) and an animation frame (line 282) |
| SnakeRules.Run | game.js:133-224 | every state reached from an invariant-satisfying state by any event sequence satisfies the invariant |
| SnakeRules.Initial | game.js:16-33 | the page before the first start satisfies the invariant: not running, empty body |
| SnakeGame.Game.constructor | game.js:16-33 | the fields start as the source initialises them (empty snake, zero velocities, food at (5, 5), score 0, not running, lastTime 0) with the given grid and stored best score |
| SnakeGame.Game.Occupies | game.js:204-209 | the scan over the body reports a hit exactly when the cell is a body cell |
| SnakeGame.Game.FreeCell | game.js:174-186 | the nested grid scan returns the first free cell in row-major order, or nothing when every cell is on the body |
| SnakeGame.Game.PlaceFood | game.js:172-187 | food becomes the first draw off the body, else the first free cell of the grid; it is unchanged only when no free cell exists |
| SnakeGame.Game.StartGame | game.js:133-152 | the new state is the start state, and it satisfies the invariant |
| SnakeGame.Game.GameOver | game.js:154-163 | running becomes false; the best score becomes max(best, score); nothing else changes |
| SnakeGame.Game.SteerTo | game.js:71-86 | the per-direction guard writes the intent into the pending slot exactly when it does not reverse the applied velocity, and keeps the invariant |
| SnakeGame.Game.KeyDown | game.js:64-89 | the keyboard handler changes only the pending velocity, as the key-press rule says, and keeps the invariant |
| SnakeGame.Game.TouchEnd | game.js:105-130 | the swipe handler changes only the pending velocity, as the swipe rule says, and keeps the invariant |
| SnakeGame.Game.Update | game.js:189-224 | one tick moves the fields exactly as the tick rule says, and keeps the invariant |
| SnakeGame.Game.GameLoop | game.js:268-284 | a frame does nothing when not running; otherwise it ticks once, and only once, exactly when timestamp - lastTime >= 100, after setting lastTime := timestamp |

## Left out

- Drawing is left out because it is cosmetic and nothing in the simulation reads it. This covers `draw`, the colour counter `baseHue`, the pulsing food scale, and the DOM text, overlay and button updates.
- `resizeCanvas` is left out. The grid size is fixed when the object is constructed. The source recomputes the grid on every window resize, even during a game; the model does not cover that, so a resize that shrinks the grid under a running snake is outside it. The requirement that the grid holds the spawn cells (10,10) to (10,12) is the model's own: the source never checks it.
- `localStorage` is left out. The stored best score is a constructor argument and is kept as a number. The source reads it back as a string and relies on coercion for the comparison. Writing the record back is not modelled.
- `requestAnimationFrame`, `cancelAnimationFrame` and `performance.now` are left out. Timestamps are integer arguments, and the "re-register while running" chain is reduced to the running test in `Frame`.
- `Math.random` is replaced by a finite sequence of draws. When every draw is on the body, the model scans the grid for the first free cell.
- SnakeGame.Game.PlaceFood: when the body covers the whole grid, the source's drawing loop never ends. The model instead leaves the food where it is. Correspondingly, the invariant only says "food off the body whenever a free cell exists". Cells that the source writes into `food.x`/`food.y` for draws it then rejects are not modelled, because they cannot be observed before the loop returns.
- SnakeRules.TickKeepsPlaying: the food is promised in bounds and off the body only while a free cell exists. After the snake fills the grid by eating, the model keeps the food on the eaten cell, where the source would never return (see the PlaceFood line above).
- `touchstart` coordinate capture and `preventDefault` are left out. `TouchEnd` takes the displacement (dx, dy) directly, as integers.
- The share button, toast and clipboard code are left out: they are browser I/O with no game state.
