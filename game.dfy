/** The game object the page drives: the fields of the mutable game record and the per-frame
    procedures that update them in place.  Each procedure is proved against the corresponding
    function of GameLogic. */
module GameSession {
  import opened Geometry
  import opened GameLogic

  class Game {
    /** The canvas size, fixed when the page loads. */
    const width: real
    const height: real

    var running: bool
    var score: int
    var playerX: real
    var playerY: real
    var items: seq<Item>
    var lastSpawn: int

    /** The current fields as a value. */
    function Snapshot(): GameState
      reads this
    {
      GameState(running, score, playerX, playerY, items, lastSpawn)
    }

    /** The record as the page first builds it: a fresh game that is not yet running. */
    constructor (width: real, height: real)
      ensures this.width == width && this.height == height
      ensures Snapshot() == Fresh(width, height).(running := false)
    {
      this.width := width;
      this.height := height;
      running := false;
      score := 0;
      playerX := width / 2.0 - PLAYER_WIDTH / 2.0;
      playerY := height - PLAYER_HEIGHT - PLAYER_GROUND_GAP;
      items := [];
      lastSpawn := 0;
    }

    /** Spawns one item at time `now` when SPAWN_INTERVAL has passed since the last spawn. */
    method SpawnItem(now: int, d: Draws)
      requires UnitDraws(d)
      modifies this
      ensures Snapshot() == Spawn(old(Snapshot()), now, d, width)
    {
      if now - lastSpawn < SPAWN_INTERVAL {
        return;
      }
      lastSpawn := now;
      items := items + [NewItem(d, width)];
    }

    /** Moves the player for one frame with the given keys held. */
    method UpdatePlayer(left: bool, right: bool)
      modifies this
      ensures Snapshot() == old(Snapshot()).(playerX := MovePlayer(old(playerX), left, right, width))
    {
      if left {
        playerX := Max(0.0, playerX - PLAYER_SPEED);
      }
      if right {
        playerX := Min(width - PLAYER_WIDTH, playerX + PLAYER_SPEED);
      }
    }

    /** Ends the game. */
    method GameOver()
      modifies this
      ensures Snapshot() == EndGame(old(Snapshot()))
    {
      running := false;
    }

    /** Advances every item from the last to the first, removing those that drop below the
        canvas and the fruits the player catches, and ending the game at the first rock that
        hits. */
    method UpdateItems()
      modifies this
      ensures Snapshot() == StepItems(old(Snapshot()), height)
    {
      var player := PlayerBox(playerX, playerY);
      ghost var original, score0 := items, score;
      // `pending` is the part not yet visited, `done` what is left of the visited part.
      ghost var pending, done := items, [];
      var i := |items| - 1;
      while i >= 0
        invariant |pending| == i + 1 && items == pending + done
        invariant pending == original[..i + 1]
        invariant Sweep(original, [], 0, player, height) == Sweep(pending, done, score - score0, player, height)
        invariant running == old(running) && playerX == old(playerX) && playerY == old(playerY)
        invariant lastSpawn == old(lastSpawn)
        decreases i
      {
        var item := Fall(items[i]);
        assert items[i] == pending[i];
        ghost var front := pending[..i];
        assert items[..i] == front && items[i + 1..] == done;
        if item.y > height {
          items := items[..i] + items[i + 1..];
        } else if Overlap(player, ItemBox(item)) {
          if item.kind.Rock? {
            items := items[i := item];
            assert items == front + [item] + done;
            GameOver();
            return;
          }
          score := score + FRUIT_POINTS[item.kind.variant];
          items := items[..i] + items[i + 1..];
        } else {
          items := items[i := item];
          assert items == front + ([item] + done);
          done := [item] + done;
        }
        pending := front;
        i := i - 1;
      }
      assert pending == [];
    }

    /** One frame: nothing once the game is over; otherwise spawn, move, sweep. */
    method GameLoop(now: int, left: bool, right: bool, d: Draws)
      requires UnitDraws(d)
      modifies this
      ensures Snapshot() == Frame(old(Snapshot()), now, left, right, d, width, height)
    {
      if !running {
        return;
      }
      SpawnItem(now, d);
      UpdatePlayer(left, right);
      UpdateItems();
    }

    /** Starts a new game from scratch and runs its first frame at once; the held keys are
        forgotten, so that frame moves nobody. */
    method StartGame(now: int, d: Draws)
      requires UnitDraws(d)
      modifies this
      ensures Snapshot() == Frame(Fresh(width, height), now, false, false, d, width, height)
    {
      running := true;
      score := 0;
      playerX := width / 2.0 - PLAYER_WIDTH / 2.0;
      playerY := height - PLAYER_HEIGHT - PLAYER_GROUND_GAP;
      items := [];
      lastSpawn := 0;
      assert Snapshot() == Fresh(width, height);
      GameLoop(now, false, false, d);
    }
  }
}
