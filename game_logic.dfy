/** The per-frame rules of the fruit-catching game, as functions over a value of the game state.
    A monkey moves left and right along the bottom of the canvas; fruits and rocks fall from
    the top.  Catching a fruit scores its points, touching a rock ends the game. */
module GameLogic {
  import opened Geometry

  // ---------------------------------------------------------------------------------------
  // Constants and tables
  // ---------------------------------------------------------------------------------------

  const PLAYER_WIDTH: real := 90.0
  const PLAYER_HEIGHT: real := 85.0
  const PLAYER_SPEED: real := 7.0
  /** Gap between the player's feet and the bottom of the canvas. */
  const PLAYER_GROUND_GAP: real := 20.0

  const FALL_SPEED_MIN: real := 2.0
  const FALL_SPEED_MAX: real := 5.0
  /** Milliseconds that must pass between two spawns. */
  const SPAWN_INTERVAL: int := 1200
  const ITEM_SIZE: real := 46.0
  /** A spawn is a rock when its first random draw is below this. */
  const ROCK_CHANCE: real := 0.3

  /** Margin cut from each side of the player and of an item before the overlap test. */
  const PLAYER_INSET: real := 12.0
  const ITEM_INSET: real := 4.0

  /** The points of the fruit table, in table order (cherry first, melon last). */
  const FRUIT_POINTS: seq<int> := [5, 8, 10, 12, 15, 18, 22, 25, 30, 35, 40, 50]
  /** The rock table only chooses a look; its length is all that matters here. */
  const ROCK_STYLE_COUNT: int := 4

  type FruitIndex = v: int | 0 <= v < |FRUIT_POINTS|
  type RockIndex = v: int | 0 <= v < ROCK_STYLE_COUNT

  /** Every entry of the fruit table is worth a positive number of points. */
  lemma FruitPointsPositive(v: FruitIndex)
    ensures FRUIT_POINTS[v] > 0
  {
  }

  // ---------------------------------------------------------------------------------------
  // Falling items
  // ---------------------------------------------------------------------------------------

  datatype Kind = Rock(rockVariant: RockIndex) | Fruit(variant: FruitIndex)

  /** A falling item: its kind, the top-left corner of its square and its fall speed per frame. */
  datatype Item = Item(kind: Kind, x: real, y: real, speed: real)

  /** The four random numbers one spawn draws, in the order it draws them:
      rock or fruit, horizontal position, table entry, fall speed. */
  datatype Draws = Draws(isRock: real, pos: real, variant: real, speed: real)

  /** Each draw lies in [0, 1), as the host's random source guarantees. */
  predicate UnitDraws(d: Draws) {
    0.0 <= d.isRock < 1.0 && 0.0 <= d.pos < 1.0 && 0.0 <= d.variant < 1.0 && 0.0 <= d.speed < 1.0
  }

  /** Scaling a draw in [0, 1) by a positive m lands in [0, m). */
  lemma UnitTimesPositive(r: real, m: real)
    requires 0.0 <= r < 1.0 && m > 0.0
    ensures 0.0 <= r * m < m
  {
  }

  /** The value `r * m` a draw r selects in [0, m). */
  function Stretch(r: real, m: real): (v: real)
    requires 0.0 <= r < 1.0
    ensures m > 0.0 ==> 0.0 <= v < m
  {
    if m > 0.0 then UnitTimesPositive(r, m); r * m else r * m
  }

  /** The table index `floor(r * n)` a draw r selects among n entries. */
  function Pick(r: real, n: nat): (k: int)
    requires 0.0 <= r < 1.0 && n > 0
    ensures 0 <= k < n
  {
    Stretch(r, n as real).Floor
  }

  /** The item one spawn creates from its draws on a canvas of the given width. */
  function NewItem(d: Draws, width: real): (it: Item)
    requires UnitDraws(d)
    ensures it.y == -ITEM_SIZE
    ensures it.kind.Rock? <==> d.isRock < ROCK_CHANCE
    ensures FALL_SPEED_MIN <= it.speed < FALL_SPEED_MAX
    ensures width > ITEM_SIZE ==> 0.0 <= it.x < width - ITEM_SIZE
  {
    var x := Stretch(d.pos, width - ITEM_SIZE);
    var speed := FALL_SPEED_MIN + Stretch(d.speed, FALL_SPEED_MAX - FALL_SPEED_MIN);
    if d.isRock < ROCK_CHANCE then
      Item(Rock(Pick(d.variant, ROCK_STYLE_COUNT)), x, -ITEM_SIZE, speed)
    else
      Item(Fruit(Pick(d.variant, |FRUIT_POINTS|)), x, -ITEM_SIZE, speed)
  }

  /** One frame of falling. */
  function Fall(it: Item): Item {
    it.(y := it.y + it.speed)
  }

  /** The inset hit box of an item. */
  function ItemBox(it: Item): Rect {
    Rect(it.x + ITEM_INSET, it.y + ITEM_INSET, ITEM_SIZE - 2.0 * ITEM_INSET, ITEM_SIZE - 2.0 * ITEM_INSET)
  }

  /** The inset hit box of the player standing at (x, y). */
  function PlayerBox(x: real, y: real): Rect {
    Rect(x + PLAYER_INSET, y + PLAYER_INSET, PLAYER_WIDTH - 2.0 * PLAYER_INSET, PLAYER_HEIGHT - 2.0 * PLAYER_INSET)
  }

  /** In terms of the items' and player's own corners, a hit is an item whose corner lies
      in an open window around the player's corner. */
  lemma HitWindow(px: real, py: real, it: Item)
    ensures Overlap(PlayerBox(px, py), ItemBox(it)) <==>
              px - 30.0 < it.x < px + 74.0 && py - 30.0 < it.y < py + 69.0
  {
  }

  /** The insets matter: an item 30 units left of the player, at the same height, overlaps
      the player's untrimmed square by 16 units and still does not hit. */
  lemma UntrimmedOverlapWithoutHit(px: real, py: real, kind: Kind, speed: real)
    ensures var it := Item(kind, px - 30.0, py, speed);
            && Overlap(Rect(px, py, PLAYER_WIDTH, PLAYER_HEIGHT), Rect(it.x, it.y, ITEM_SIZE, ITEM_SIZE))
            && (px + PLAYER_WIDTH) - it.x > 0.0 && (it.x + ITEM_SIZE) - px == 16.0
            && !Overlap(PlayerBox(px, py), ItemBox(it))
  {
  }

  // ---------------------------------------------------------------------------------------
  // Player motion
  // ---------------------------------------------------------------------------------------

  function Max(a: real, b: real): real { if a < b then b else a }
  function Min(a: real, b: real): real { if a < b then a else b }

  /** The player's new horizontal position after one frame with the given keys held:
      left is applied first, then right, each clamped to the canvas. */
  function MovePlayer(x: real, left: bool, right: bool, width: real): (r: real)
    ensures 0.0 <= x <= width - PLAYER_WIDTH ==> 0.0 <= r <= width - PLAYER_WIDTH
    ensures !left && !right ==> r == x
    ensures left && !right && 0.0 <= x ==> 0.0 <= r <= x && x - r <= PLAYER_SPEED
    ensures left && !right && PLAYER_SPEED <= x ==> r == x - PLAYER_SPEED
    ensures !left && right && x <= width - PLAYER_WIDTH ==> x <= r <= width - PLAYER_WIDTH && r - x <= PLAYER_SPEED
    ensures !left && right && x + PLAYER_SPEED <= width - PLAYER_WIDTH ==> r == x + PLAYER_SPEED
    ensures left && right && PLAYER_SPEED <= x <= width - PLAYER_WIDTH ==> r == x
  {
    var afterLeft := if left then Max(0.0, x - PLAYER_SPEED) else x;
    if right then Min(width - PLAYER_WIDTH, afterLeft + PLAYER_SPEED) else afterLeft
  }

  /** Holding both keys next to the left wall does not cancel out: the left step is cut
      short by the wall and the right step is not, so the player ends up PLAYER_SPEED from it. */
  lemma BothKeysAtLeftWall(x: real, width: real)
    requires 0.0 <= x < PLAYER_SPEED && PLAYER_SPEED <= width - PLAYER_WIDTH
    ensures MovePlayer(x, true, true, width) == PLAYER_SPEED
  {
  }

  // ---------------------------------------------------------------------------------------
  // Game state, spawning and session control
  // ---------------------------------------------------------------------------------------

  /** The mutable game record, without the key map and the animation handle. */
  datatype GameState = GameState(
    running: bool,
    score: int,
    playerX: real,
    playerY: real,
    items: seq<Item>,
    lastSpawn: int)

  /** The state a new game starts from on a canvas of the given size. */
  function Fresh(width: real, height: real): (s: GameState)
    ensures s.running && s.score == 0 && s.items == [] && s.lastSpawn == 0
    ensures s.playerX + PLAYER_WIDTH / 2.0 == width / 2.0
    ensures s.playerY + PLAYER_HEIGHT + PLAYER_GROUND_GAP == height
    ensures width >= PLAYER_WIDTH ==> 0.0 <= s.playerX <= width - PLAYER_WIDTH
  {
    GameState(true, 0, width / 2.0 - PLAYER_WIDTH / 2.0, height - PLAYER_HEIGHT - PLAYER_GROUND_GAP, [], 0)
  }

  /** The time-gated spawner at time `now` (milliseconds). */
  function Spawn(s: GameState, now: int, d: Draws, width: real): (r: GameState)
    requires UnitDraws(d)
    ensures now - s.lastSpawn < SPAWN_INTERVAL ==> r == s
    ensures now - s.lastSpawn >= SPAWN_INTERVAL ==>
              && r.lastSpawn == now
              && |r.items| == |s.items| + 1
              && r.items[..|s.items|] == s.items
              && r.items[|s.items|] == NewItem(d, width)
              && r.(items := s.items, lastSpawn := s.lastSpawn) == s
  {
    if now - s.lastSpawn < SPAWN_INTERVAL then s
    else s.(lastSpawn := now, items := s.items + [NewItem(d, width)])
  }

  /** Spawns are never closer than SPAWN_INTERVAL: a spawn happens only that long after the
      previous one, and records its own time as the new reference. */
  lemma SpawnsAreSpaced(s: GameState, now: int, d: Draws, width: real)
    requires UnitDraws(d)
    ensures |Spawn(s, now, d, width).items| != |s.items| ==>
              now - s.lastSpawn >= SPAWN_INTERVAL && Spawn(s, now, d, width).lastSpawn == now
  {
  }

  /** Ending the game only clears the running flag. */
  function EndGame(s: GameState): (r: GameState)
    ensures !r.running && r.(running := s.running) == s
  {
    s.(running := false)
  }

  // ---------------------------------------------------------------------------------------
  // The item sweep
  // ---------------------------------------------------------------------------------------

  datatype SweepResult = SweepResult(items: seq<Item>, gained: int, rockHit: bool)

  /** The reverse sweep over the item list, exactly as the frame runs it: `pending` holds the
      items not yet visited, the last of them is visited next, and `done` holds what is left of
      the items already visited.  A visited item falls one step; one that drops below the canvas
      is removed, a fruit that hits the player is scored and removed, and a rock that hits the
      player stops the sweep where it is, leaving the rock and every unvisited item in place. */
  function Sweep(pending: seq<Item>, done: seq<Item>, gained: int, player: Rect, height: real): SweepResult
    decreases |pending|
  {
    if pending == [] then SweepResult(done, gained, false)
    else
      var i := |pending| - 1;
      var item := Fall(pending[i]);
      if item.y > height then Sweep(pending[..i], done, gained, player, height)
      else if Overlap(player, ItemBox(item)) then
        match item.kind
        case Rock(_) => SweepResult(pending[..i] + [item] + done, gained, true)
        case Fruit(v) => Sweep(pending[..i], done, gained + FRUIT_POINTS[v], player, height)
      else Sweep(pending[..i], [item] + done, gained, player, height)
  }

  /** After its fall, the item has dropped below the canvas. */
  predicate Gone(it: Item, height: real) {
    Fall(it).y > height
  }

  /** After its fall, the item is still on the canvas and touches the player. */
  predicate Hits(it: Item, player: Rect, height: real) {
    !Gone(it, height) && Overlap(player, ItemBox(Fall(it)))
  }

  predicate RockHit(it: Item, player: Rect, height: real) {
    it.kind.Rock? && Hits(it, player, height)
  }

  /** Points an item scores this frame: its table points if it is a fruit that hits, else 0. */
  function Score(it: Item, player: Rect, height: real): (p: int)
    ensures p >= 0
    ensures p > 0 <==> it.kind.Fruit? && Hits(it, player, height)
  {
    if it.kind.Fruit? && Hits(it, player, height) then
      FruitPointsPositive(it.kind.variant);
      FRUIT_POINTS[it.kind.variant]
    else 0
  }

  /** Reference definition, front to back: the fallen items that are neither gone nor hit,
      in their original order. */
  function Survivors(s: seq<Item>, player: Rect, height: real): seq<Item> {
    if s == [] then []
    else
      (if Gone(s[0], height) || Hits(s[0], player, height) then [] else [Fall(s[0])])
      + Survivors(s[1..], player, height)
  }

  /** Reference definition: the total points of the fruits in s that hit. */
  function Gained(s: seq<Item>, player: Rect, height: real): (g: int)
    ensures g >= 0
  {
    if s == [] then 0 else Score(s[0], player, height) + Gained(s[1..], player, height)
  }

  datatype Option<T> = None | Some(value: T)

  /** The highest index of a rock that hits, if there is one; the reverse sweep meets it first. */
  function LastRockHit(s: seq<Item>, player: Rect, height: real): (r: Option<nat>)
    ensures r.Some? ==> r.value < |s| && RockHit(s[r.value], player, height)
    ensures r.Some? ==> forall k :: r.value < k < |s| ==> !RockHit(s[k], player, height)
    ensures r.None? <==> forall k :: 0 <= k < |s| ==> !RockHit(s[k], player, height)
    decreases |s|
  {
    if s == [] then None
    else if RockHit(s[|s| - 1], player, height) then Some(|s| - 1)
    else LastRockHit(s[..|s| - 1], player, height)
  }

  lemma {:induction false} SurvivorsAppend(a: seq<Item>, b: seq<Item>, player: Rect, height: real)
    ensures Survivors(a + b, player, height) == Survivors(a, player, height) + Survivors(b, player, height)
    decreases |a|
  {
    if a == [] {
      assert a + b == b;
    } else {
      assert (a + b)[1..] == a[1..] + b;
      SurvivorsAppend(a[1..], b, player, height);
    }
  }

  lemma {:induction false} GainedAppend(a: seq<Item>, b: seq<Item>, player: Rect, height: real)
    ensures Gained(a + b, player, height) == Gained(a, player, height) + Gained(b, player, height)
    decreases |a|
  {
    if a == [] {
      assert a + b == b;
    } else {
      assert (a + b)[1..] == a[1..] + b;
      GainedAppend(a[1..], b, player, height);
    }
  }

  /** Reference result of sweeping `p` onto `done` with `gained` points already counted: with
      no rock hit, the survivors in order and every fruit that hits scored; otherwise the items
      below the highest rock that hits unmoved and unscored, that rock fallen one step and kept,
      and the items above it swept as without a rock. */
  function Reference(p: seq<Item>, done: seq<Item>, gained: int, player: Rect, height: real): SweepResult {
    match LastRockHit(p, player, height)
    case None =>
      SweepResult(Survivors(p, player, height) + done, gained + Gained(p, player, height), false)
    case Some(j) =>
      SweepResult(p[..j] + [Fall(p[j])] + Survivors(p[j + 1..], player, height) + done,
                  gained + Gained(p[j + 1..], player, height), true)
  }

  /** Appending an item that is no rock hit to the unvisited items amounts to visiting it first. */
  lemma ReferenceSnoc(front: seq<Item>, last: Item, done: seq<Item>, gained: int, player: Rect, height: real)
    requires !RockHit(last, player, height)
    ensures Reference(front + [last], done, gained, player, height) ==
              Reference(front,
                        if Gone(last, height) || Hits(last, player, height) then done else [Fall(last)] + done,
                        gained + Score(last, player, height), player, height)
  {
    var p := front + [last];
    assert p[..|front|] == front;
    SurvivorsAppend(front, [last], player, height);
    GainedAppend(front, [last], player, height);
    match LastRockHit(front, player, height)
    case None =>
    case Some(j) =>
      assert p[..j] == front[..j];
      assert p[j + 1..] == front[j + 1..] + [last];
      SurvivorsAppend(front[j + 1..], [last], player, height);
      GainedAppend(front[j + 1..], [last], player, height);
  }

  /** The reverse sweep, as the frame runs it, agrees with the front-to-back reference. */
  lemma {:induction false} SweepMatchesReference(p: seq<Item>, done: seq<Item>, gained: int, player: Rect, height: real)
    ensures Sweep(p, done, gained, player, height) == Reference(p, done, gained, player, height)
    decreases |p|
  {
    if p != [] {
      var i := |p| - 1;
      var front, last := p[..i], p[i];
      assert p == front + [last];
      var item := Fall(last);
      if item.y <= height && Overlap(player, ItemBox(item)) && item.kind.Rock? {
        assert LastRockHit(p, player, height) == Some(i);
        assert p[i + 1..] == [];
      } else {
        var d' := if Gone(last, height) || Hits(last, player, height) then done else [item] + done;
        SweepMatchesReference(front, d', gained + Score(last, player, height), player, height);
        ReferenceSnoc(front, last, done, gained, player, height);
      }
    }
  }

  /** The survivors are exactly the fallen copies of the items that are neither gone nor hit:
      none is lost and none is invented. */
  lemma {:induction false} SurvivorsMembership(s: seq<Item>, player: Rect, height: real, it: Item)
    ensures it in Survivors(s, player, height) <==>
              exists k :: 0 <= k < |s| && !Gone(s[k], height) && !Hits(s[k], player, height) && it == Fall(s[k])
    decreases |s|
  {
    if s != [] {
      SurvivorsMembership(s[1..], player, height, it);
      if exists k :: 0 <= k < |s| && !Gone(s[k], height) && !Hits(s[k], player, height) && it == Fall(s[k]) {
        var k :| 0 <= k < |s| && !Gone(s[k], height) && !Hits(s[k], player, height) && it == Fall(s[k]);
        if k > 0 {
          assert s[1..][k - 1] == s[k];
        }
      }
      if it in Survivors(s[1..], player, height) {
        var k :| 0 <= k < |s[1..]| && !Gone(s[1..][k], height) && !Hits(s[1..][k], player, height) && it == Fall(s[1..][k]);
        assert s[k + 1] == s[1..][k];
      }
    }
  }

  /** The item step of one frame: sweep the items against the player's hit box, add the points
      caught, and end the game if a rock hit. */
  function StepItems(s: GameState, height: real): (r: GameState)
    ensures r.score >= s.score
    ensures r.running <==> s.running && forall k :: 0 <= k < |s.items| ==> !RockHit(s.items[k], PlayerBox(s.playerX, s.playerY), height)
    ensures r.playerX == s.playerX && r.playerY == s.playerY && r.lastSpawn == s.lastSpawn
  {
    var player := PlayerBox(s.playerX, s.playerY);
    var sw := Sweep(s.items, [], 0, player, height);
    SweepMatchesReference(s.items, [], 0, player, height);
    var s' := s.(items := sw.items, score := s.score + sw.gained);
    if sw.rockHit then EndGame(s') else s'
  }

  /** A frame in which no rock hits: the items become the survivors in order, and the score
      rises by exactly the points of the fruits caught. */
  lemma FrameWithoutRockHit(s: GameState, height: real)
    requires forall k :: 0 <= k < |s.items| ==> !RockHit(s.items[k], PlayerBox(s.playerX, s.playerY), height)
    ensures StepItems(s, height) ==
              s.(items := Survivors(s.items, PlayerBox(s.playerX, s.playerY), height),
                 score := s.score + Gained(s.items, PlayerBox(s.playerX, s.playerY), height))
  {
    var player := PlayerBox(s.playerX, s.playerY);
    SweepMatchesReference(s.items, [], 0, player, height);
    assert Survivors(s.items, player, height) + [] == Survivors(s.items, player, height);
  }

  /** A frame in which a rock hits: the game ends, the items below the highest such rock are
      left as they were, that rock has fallen one step and stays, and only the fruits above it
      are scored. */
  lemma FrameWithRockHit(s: GameState, height: real, j: nat)
    requires j < |s.items| && RockHit(s.items[j], PlayerBox(s.playerX, s.playerY), height)
    requires forall k :: j < k < |s.items| ==> !RockHit(s.items[k], PlayerBox(s.playerX, s.playerY), height)
    ensures StepItems(s, height) ==
              s.(running := false,
                 items := s.items[..j] + [Fall(s.items[j])] + Survivors(s.items[j + 1..], PlayerBox(s.playerX, s.playerY), height),
                 score := s.score + Gained(s.items[j + 1..], PlayerBox(s.playerX, s.playerY), height))
  {
    var player := PlayerBox(s.playerX, s.playerY);
    SweepMatchesReference(s.items, [], 0, player, height);
    assert LastRockHit(s.items, player, height) == Some(j);
    var rest := Survivors(s.items[j + 1..], player, height);
    assert s.items[..j] + [Fall(s.items[j])] + rest + [] == s.items[..j] + [Fall(s.items[j])] + rest;
  }

  // ---------------------------------------------------------------------------------------
  // One frame
  // ---------------------------------------------------------------------------------------

  /** One frame of the game loop: nothing while the game is over; otherwise spawn, move the
      player, then sweep the items. */
  function Frame(s: GameState, now: int, left: bool, right: bool, d: Draws, width: real, height: real): (r: GameState)
    requires UnitDraws(d)
    ensures !s.running ==> r == s
    ensures r.score >= s.score
    ensures r.playerY == s.playerY
    ensures r.running ==> s.running
  {
    if !s.running then s
    else
      var spawned := Spawn(s, now, d, width);
      var moved := spawned.(playerX := MovePlayer(spawned.playerX, left, right, width));
      StepItems(moved, height)
  }

  /** What the loop keeps true from frame to frame: the player stays on the canvas and the
      score stays non-negative. */
  predicate Invariant(s: GameState, width: real) {
    0.0 <= s.playerX <= width - PLAYER_WIDTH && s.score >= 0
  }

  lemma FreshSatisfiesInvariant(width: real, height: real)
    requires width >= PLAYER_WIDTH
    ensures Invariant(Fresh(width, height), width)
  {
  }

  lemma FramePreservesInvariant(s: GameState, now: int, left: bool, right: bool, d: Draws, width: real, height: real)
    requires UnitDraws(d) && Invariant(s, width)
    ensures Invariant(Frame(s, now, left, right, d, width, height), width)
  {
  }

  /** Starting a game runs its first frame at once, with no key held.  On a canvas at least
      94 units tall that frame scores nothing and cannot end the game: the item it may spawn
      has only just entered, far above the player.  It spawns an item unless the clock still
      reads less than SPAWN_INTERVAL. */
  lemma FirstFrame(now: int, d: Draws, width: real, height: real)
    requires UnitDraws(d) && height >= 94.0
    ensures var r := Frame(Fresh(width, height), now, false, false, d, width, height);
            && r.running && r.score == 0
            && r.playerX == Fresh(width, height).playerX
            && r.items == (if now < SPAWN_INTERVAL then [] else [Fall(NewItem(d, width))])
            && r.lastSpawn == (if now < SPAWN_INTERVAL then 0 else now)
  {
    var s := Fresh(width, height);
    var spawned := Spawn(s, now, d, width);
    assert MovePlayer(spawned.playerX, false, false, width) == spawned.playerX;
    assert spawned.(playerX := spawned.playerX) == spawned;
    if now >= SPAWN_INTERVAL {
      var it := NewItem(d, width);
      assert spawned.items == [it];
      var player := PlayerBox(s.playerX, s.playerY);
      var fallen := Fall(it);
      assert fallen.y < 0.0;
      assert !Overlap(player, ItemBox(fallen));
      assert [it][..0] == [];
      assert Sweep([it], [], 0, player, height) == Sweep([], [fallen], 0, player, height);
    }
  }
}
