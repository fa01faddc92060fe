# Fruit-catching game: the per-frame simulation

This project models the simulation core of a small browser game, `js/game.js`. A monkey
moves left and right along the bottom of a canvas. Fruits and rocks fall from the top.
Catching a fruit adds that fruit's points to the score. Touching a rock ends the game.
Each animation frame runs three steps in order:

1. the time-gated spawner (`spawnItem`);
2. player motion (`updatePlayer`);
3. the reverse sweep over the falling items (`updateItems`). It moves each item down,
   removes items that have left the canvas, scores fruits that hit, and stops at a rock
   that hits.

Session control is modelled too: `gameOver`, `startGame` and the `running` guard of
`gameLoop`.

The model has three modules:

- `Geometry` (geometry.dfy): rectangles and the strict overlap test `rectOverlap`.
- `GameLogic` (game_logic.dfy): the constants and the fruit table, the item and state records, and
  every step as a function over a value `GameState`. It also holds the lemmas about those
  functions. The centre of it is `Sweep`, which mirrors the reverse `for` loop and its early
  `return` step by step. `SweepMatchesReference` proves it equal to `Reference`, a
  front-to-back description: the survivors in their original order (`Survivors`), the points
  caught (`Gained`), and the highest rock that hits (`LastRockHit`).
- `GameSession` (game.dfy): class `Game`, with the fields of the game record and methods that
  update them in place just as the source does. `UpdateItems` keeps the reverse index loop and
  its splices. Each method's `ensures` equates the new `Snapshot()` of the fields with the
  matching `GameLogic` function applied to the old one.

Host inputs become parameters:

- the clock (`Date.now()`) is the integer `now`, in milliseconds;
- the four `Math.random()` draws of one spawn form a `Draws` record, each in [0, 1). They are
  taken in the source's order: rock or fruit, x position, table entry, speed;
- the key map is two booleans. `left` stands for ArrowLeft or KeyA held, and `right` for
  ArrowRight or KeyD held;
- the canvas size comes from the page's markup, so it is passed to the constructor.

Positions and speeds are `real`. The source only adds, subtracts and compares them, multiplies
by random draws, halves the canvas width (js/game.js:53, 260), takes `Math.floor` of a scaled
draw (148, 154) and clamps with `Math.min`/`Math.max` (167, 170). All of these are exact over
the reals, so the model computes what the source computes, apart from floating-point rounding.

Three details of `js/game.js` are easy to get wrong:

- the spawn interval is the fixed 1200 ms;
- the fall speed is drawn from [2, 5), with no multiplier;
- a rock that hits is NOT removed. It stays in the list, and the sweep stops at once, so the
  items below it in the list do not move that frame.

One more detail of the code matters at the start of a game. `startGame` runs the first
frame immediately, with the key map just cleared. `StartGame` models this, and `FirstFrame`
states what that first frame does.

## Model

| member | source | states |
|---|---|---|
| `Geometry.OverlapSymmetric` | js/game.js:174-176 | the overlap test gives the same answer with its arguments swapped |
| `Geometry.TouchingEdgesDoNotOverlap` | js/game.js:174-176 | two rectangles that only share an edge (left/right or top/bottom) do not overlap, because the comparisons are strict |
| `Geometry.OverlapIffCommonPoint` | js/game.js:174-176 | for rectangles of positive size, the four comparisons hold exactly when some point lies strictly inside both rectangles |
| `GameLogic.FruitPointsPositive` | js/game.js:27-40 | every entry of the fruit table is worth a positive number of points |
| `GameLogic.Pick` | js/game.js:148-154 | `floor(r * n)` for a draw r in [0, 1) is a valid index into a table of n entries |
| `GameLogic.NewItem` | js/game.js:142-161 | a spawned item starts at y = −ITEM_SIZE; it is a rock exactly when the first draw is below 0.3; its speed lies in [FALL_SPEED_MIN, FALL_SPEED_MAX); on a canvas wider than an item, x lies in [0, width − ITEM_SIZE); its variant is a valid index of the rock or fruit table (by its type) |
| `GameLogic.HitWindow` | js/game.js:179-202 | the inset boxes overlap exactly when the item's corner lies in the open window (px−30, px+74) × (py−30, py+69) around the player's corner |
| `GameLogic.UntrimmedOverlapWithoutHit` | js/game.js:179-202 | an item 30 units left of the player's corner, at the same height, has an untrimmed 46×46 square that overlaps the player's untrimmed 90×85 square by 16 units, yet the inset boxes do not overlap, so it is no hit |
| `GameLogic.MovePlayer` | js/game.js:165-172 | a position in [0, width − PLAYER_WIDTH] stays in it; with no key held the position is unchanged; left alone moves at most PLAYER_SPEED towards 0 and exactly PLAYER_SPEED when there is room; right alone does the same towards the right wall; both keys cancel away from the left wall |
| `GameLogic.BothKeysAtLeftWall` | js/game.js:166-171 | with both keys held and the player within PLAYER_SPEED of the left wall, the player ends exactly PLAYER_SPEED from the wall, because the left step is clamped first and the right step is not |
| `GameLogic.Fresh` | js/game.js:256-266 | a new game is running, with score 0, no items, lastSpawn 0, the player centred horizontally (and inside the canvas when it fits), and the player's feet 20 units above the bottom |
| `GameLogic.Spawn` | js/game.js:137-163 | less than SPAWN_INTERVAL after the last spawn, the state is unchanged; otherwise lastSpawn becomes now and exactly one new item is appended at the end, with the existing items and every other field untouched |
| `GameLogic.SpawnsAreSpaced` | js/game.js:139-140 | an item is added only when at least SPAWN_INTERVAL has passed since the previous spawn, and that spawn's time becomes the new reference |
| `GameLogic.EndGame` | js/game.js:214-215 | ending the game clears the running flag and changes nothing else |
| `GameLogic.Score` | js/game.js:202-207 | an item scores a positive amount exactly when it is a fruit that is still on the canvas after its fall and hits the player; otherwise it scores 0 |
| `GameLogic.Gained` | js/game.js:207 | the points caught in one sweep are never negative |
| `GameLogic.LastRockHit` | js/game.js:186-206 | returns the highest index of a rock that hits after falling, which is the first one the reverse loop meets, with no rock hit above it; it returns none exactly when no rock hits |
| `GameLogic.SweepMatchesReference` | js/game.js:186-211 | the reverse sweep with splices and early return equals the front-to-back reference. Without a rock hit: the survivors in order, and every fruit that hits scored. With one: the items below the highest rock that hits are unmoved and unscored, that rock has fallen one step and stays, and the items above it are swept normally |
| `GameLogic.SurvivorsMembership` | js/game.js:186-211 | an item is among the survivors exactly when it is some original item moved down by exactly its speed, where that original neither left the canvas nor hit the player: no item is lost, none is invented |
| `GameLogic.StepItems` | js/game.js:178-212 | the item step never lowers the score; the game stays running exactly when it was running and no item is a rock that hits; the player and lastSpawn are untouched |
| `GameLogic.FrameWithoutRockHit` | js/game.js:186-211 | when no rock hits, the items become the survivors in their original order, and the score rises by exactly the points of the fruits caught |
| `GameLogic.FrameWithRockHit` | js/game.js:202-206 | when a rock hits, the game ends. The items below the highest such rock stay as they were, the rock has fallen and stays in the list, and only the fruits above it are scored |
| `GameLogic.Frame` | js/game.js:245-250 | a frame does nothing when the game is not running; otherwise it never lowers the score, never moves the player vertically, and never restarts a finished game |
| `GameLogic.FreshSatisfiesInvariant` | js/game.js:256-266 | on a canvas at least as wide as the player, a new game starts with the player inside the canvas and a non-negative score |
| `GameLogic.FramePreservesInvariant` | js/game.js:245-250 | every frame keeps the player inside [0, width − PLAYER_WIDTH] and the score non-negative |
| `GameLogic.FirstFrame` | js/game.js:256-270 | the frame that starting a game runs at once keeps the game running with score 0 and the player centred, on a canvas at least 94 tall. It spawns the first item (already moved one step) unless the clock reads under SPAWN_INTERVAL |
| `GameSession.Game.constructor` | js/game.js:50-59 | the record the page first builds is a fresh game that is not yet running |
| `GameSession.Game.SpawnItem` | js/game.js:137-163 | the fields after the call are the spawner's result on the fields before |
| `GameSession.Game.UpdatePlayer` | js/game.js:165-172 | only playerX changes, to the clamped move of its old value |
| `GameSession.Game.GameOver` | js/game.js:214-215 | only the running flag changes, to false |
| `GameSession.Game.UpdateItems` | js/game.js:178-212 | the reverse index loop with in-place splices and early return leaves the fields equal to the item step of the old fields |
| `GameSession.Game.GameLoop` | js/game.js:245-250 | the fields after the call are one frame of the fields before |
| `GameSession.Game.StartGame` | js/game.js:256-270 | the fields after the call are one frame, with no key held, of a fresh game |

## Left out

- Drawing: `drawPlayer`, `drawFruit`, `drawRock` and `draw` (js/game.js:61-135, 221-243). They only render state and take no decisions.
- DOM access: the score and final-score text, and showing or hiding the screens (js/game.js:4-11, 208, 217-218, 267-269). This is display only.
- Frame scheduling with `requestAnimationFrame` and `cancelAnimationFrame`, and the `animationId` field (js/game.js:216, 253). One `GameLoop` call is one frame. Two loops running at once are not modelled. That can happen because `gameOver` (line 216) cancels the id of the frame that is already running, and `gameLoop` then requests one more frame at line 253 after `updateItems` returns; a restart before that frame fires leaves two loops going.
- Keyboard and button listeners (js/game.js:273-283). Their effect enters as the `left`/`right` booleans of each frame. The reset of the key map by `startGame` is modelled as no key held during the first frame.
- `Date.now()` and `Math.random()`. They are parameters. The draws are required to lie in [0, 1), which is what the host promises.
- Emoji strings, rock colours and spike counts. Only the table lengths and the fruit points are kept.
- Floating-point rounding. Positions are exact reals.
- Aliasing of item objects. The source changes `item.y` on the object stored in the array. The model replaces the list element with its moved copy. Nothing else refers to items, so the behaviour is the same.
