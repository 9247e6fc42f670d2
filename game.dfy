/** The game state of game.js as one object whose fields the simulation interval, the
    enemy-fire interval and the keydown handler update in place. Each method is proved to
    leave the state that the matching function of module Rules computes from the old one. */
module Game {
  import opened Geometry
  import opened Rules

  class Game {
    /** The canvas size, fixed at start-up (window.innerWidth and innerHeight). */
    const canvasWidth: real
    const canvasHeight: real

    var player: Rect
    var invaders: seq<Rect>
    var bullets: seq<Rect>
    var invaderBullets: seq<Rect>
    var score: int
    /** What updateScoreDisplay last wrote to the score readout. */
    var shownScore: int
    var lastShotTime: int
    var moveRight: bool
    /** What displayMessage last wrote; not Ongoing once the simulation interval is cleared. */
    var outcome: Outcome

    ghost function Snapshot(): State
      reads this
    {
      State(player, invaders, bullets, invaderBullets, score, shownScore, lastShotTime, moveRight, outcome)
    }

    /** Module start-up: the player centred near the bottom, and the invader grid, where
        mask[8 * i + j] is the random draw that decides whether cell (i, j) is filled. */
    constructor (width: nat, height: nat, mask: seq<bool>)
      requires width > 0 && height > 0 && |mask| == Rows * Columns
      ensures canvasWidth == width as real && canvasHeight == height as real
      ensures Snapshot() == Initial(mask, canvasWidth, canvasHeight)
    {
      canvasWidth := width as real;
      canvasHeight := height as real;
      player := Rect(width as real / 2.0 - PlayerWidth / 2.0, height as real - PlayerHeight - 10.0,
                     PlayerWidth, PlayerHeight);
      var grid: seq<Rect> := [];
      for i := 0 to Rows
        invariant grid == Grid(mask, i)
      {
        for j := 0 to Columns
          invariant grid == Grid(mask, i) + GridRow(mask, i, j)
        {
          if mask[Columns * i + j] {
            grid := grid + [Rect((j as real) * (InvaderWidth + 20.0) + 40.0,
                                 (i as real) * (InvaderHeight + 20.0) + 40.0,
                                 InvaderWidth, InvaderHeight)];
          }
        }
      }
      invaders := grid;
      bullets, invaderBullets := [], [];
      score, shownScore, lastShotTime := 0, 0, 0;
      moveRight := true;
      outcome := Ongoing;
    }

    /** One run of the simulation interval. */
    method Tick()
      modifies this
      ensures Snapshot() == Rules.Tick(old(Snapshot()), canvasWidth, canvasHeight)
    {
      if outcome != Ongoing {
        return;  // clearInterval has cancelled the interval
      }
      MoveInvaders();
      AdvanceBullets();
      AdvanceInvaderBullets();
      ResolveCollisions();
      if Reached(invaders, player) {
        outcome := Lost;
      }
      // A tick that already lost does not go on to show "You Win!" (see module AsWritten).
      if |invaders| == 0 && outcome == Ongoing {
        outcome := Won;
      }
    }

    /** Move the formation one step sideways; reverse and drop it if any invader crossed. */
    method MoveInvaders()
      modifies this
      ensures Snapshot() == MoveStep(old(Snapshot()), canvasWidth)
    {
      var changeDirection := false;
      var i := 0;
      while i < |invaders|
        invariant 0 <= i <= |invaders| == |old(invaders)|
        invariant Snapshot() == old(Snapshot()).(invaders := invaders)
        invariant forall k :: 0 <= k < i ==> invaders[k] == Shift(old(invaders)[k], moveRight)
        invariant forall k :: i <= k < |invaders| ==> invaders[k] == old(invaders)[k]
        invariant changeDirection <==> exists k :: 0 <= k < i && Crossed(invaders[k], moveRight, canvasWidth)
      {
        var invader := invaders[i];
        if moveRight {
          invader := invader.(x := invader.x + InvaderSpeed);
          if invader.x + InvaderWidth > canvasWidth {
            changeDirection := true;
          }
        } else {
          invader := invader.(x := invader.x - InvaderSpeed);
          if invader.x < 0.0 {
            changeDirection := true;
          }
        }
        invaders := invaders[i := invader];
        i := i + 1;
      }
      ghost var moved := invaders;
      assert moved == Shifted(old(invaders), old(moveRight));
      if changeDirection {
        moveRight := !moveRight;
        i := 0;
        while i < |invaders|
          invariant 0 <= i <= |invaders| == |moved|
          invariant Snapshot() == old(Snapshot()).(invaders := invaders, moveRight := !old(moveRight))
          invariant forall k :: 0 <= k < i ==> invaders[k] == moved[k].(y := moved[k].y + InvaderHeight)
          invariant forall k :: i <= k < |invaders| ==> invaders[k] == moved[k]
        {
          invaders := invaders[i := invaders[i].(y := invaders[i].y + InvaderHeight)];
          i := i + 1;
        }
        assert invaders == Dropped(moved);
      }
    }

    /** Move every player bullet up and keep those still on screen. game.js splices the
        array inside its forEach, which skips the bullet after each removed one; here the
        survivors are collected from a full pass instead. */
    method AdvanceBullets()
      modifies this
      ensures Snapshot() == BulletStep(old(Snapshot()))
    {
      var kept: seq<Rect> := [];
      var i := 0;
      while i < |bullets|
        invariant 0 <= i <= |bullets|
        invariant Snapshot() == old(Snapshot())
        invariant kept == Retain(Risen(bullets[..i]), BelowTop)
      {
        var bullet := bullets[i].(y := bullets[i].y - PlayerBulletSpeed);
        assert Risen(bullets[..i + 1]) == Risen(bullets[..i]) + [bullet];
        if !(bullet.y + PlayerBulletHeight < 0.0) {
          kept := kept + [bullet];
        }
        i := i + 1;
      }
      assert bullets[..i] == bullets;
      bullets := kept;
    }

    /** Move every invader bullet down, keep those still on screen, and lose if one of
        them (moved) overlaps the player. As for the player bullets, the survivors are
        collected from a full pass rather than spliced out during the forEach. */
    method AdvanceInvaderBullets()
      modifies this
      ensures Snapshot() == FallStep(old(Snapshot()), canvasHeight)
    {
      var kept: seq<Rect> := [];
      var hit := false;
      var i := 0;
      while i < |invaderBullets|
        invariant 0 <= i <= |invaderBullets|
        invariant Snapshot() == old(Snapshot())
        invariant kept == Retain(Fallen(invaderBullets[..i]), AboveBottom(canvasHeight))
        invariant hit <==> exists k :: 0 <= k < i && Overlaps(Fall(invaderBullets[k]), player)
      {
        var bullet := invaderBullets[i].(y := invaderBullets[i].y + InvaderBulletSpeed);
        assert Fallen(invaderBullets[..i + 1]) == Fallen(invaderBullets[..i]) + [bullet];
        if !(bullet.y > canvasHeight) {
          kept := kept + [bullet];
        }
        if Overlaps(bullet, player) {
          hit := true;
        }
        i := i + 1;
      }
      assert invaderBullets[..i] == invaderBullets;
      FallenOverlap(invaderBullets, player);
      invaderBullets := kept;
      if hit {
        outcome := Lost;  // displayMessage("Game Over!") and clearInterval
      }
    }

    /** Each player bullet destroys the first invader it overlaps and vanishes with it;
        every kill adds 10 points and refreshes the score readout. game.js removes both
        with splice inside two nested forEach loops; see Rules.Resolve for what that does
        differently. */
    method ResolveCollisions()
      modifies this
      ensures Snapshot() == CollisionStep(old(Snapshot()))
    {
      var kept, remaining, kills := Collide(bullets, invaders);
      bullets, invaders := kept, remaining;
      if kills > 0 {
        score := score + KillScore * kills;  // score += 10 once per kill
        shownScore := score;                 // updateScoreDisplay()
      }
    }

    /** The bullet loop of the collision check over snapshots of both arrays: the bullets
        kept, the invaders remaining and the number of kills. */
    static method Collide(shots: seq<Rect>, invs: seq<Rect>) returns (kept: seq<Rect>, remaining: seq<Rect>, kills: nat)
      ensures Volley(kept, remaining, kills) == Resolve(shots, invs)
      ensures kills == |shots| - |kept| == |invs| - |remaining|
    {
      kept, remaining, kills := [], invs, 0;
      for i := 0 to |shots|
        invariant Volley(kept, remaining, kills) == Resolve(shots[..i], invs)
      {
        var bullet := shots[i];
        var hit := FirstHit(bullet, remaining);
        assert shots[..i + 1] == shots[..i] + [bullet];
        ResolveSnoc(shots[..i], bullet, invs);
        if hit < |remaining| {
          remaining := remaining[..hit] + remaining[hit + 1..];
          kills := kills + 1;
        } else {
          kept := kept + [bullet];
        }
      }
      assert shots[..|shots|] == shots;
    }

    /** The index of the first invader the bullet overlaps, or |invs| if none. */
    static method FirstHit(bullet: Rect, invs: seq<Rect>) returns (k: nat)
      ensures k <= |invs|
      ensures k < |invs| ==> Overlaps(bullet, invs[k])
      ensures forall j :: 0 <= j < k ==> !Overlaps(bullet, invs[j])
      ensures k == FirstOverlap(bullet, invs)
    {
      k := 0;
      while k < |invs| && !Overlaps(bullet, invs[k])
        invariant 0 <= k <= |invs|
        invariant forall j :: 0 <= j < k ==> !Overlaps(bullet, invs[j])
      {
        k := k + 1;
      }
    }

    /** One run of the enemy-fire interval, which is never cleared; choice is the index
        Math.floor(Math.random() * invaders.length) draws. */
    method EnemyFire(choice: nat)
      requires invaders != [] ==> choice < |invaders|
      modifies this
      ensures Snapshot() == Rules.EnemyFire(old(Snapshot()), choice)
    {
      if |invaders| > 0 {
        var invader := invaders[choice];
        invaderBullets := invaderBullets + [Rect(invader.x + invader.w / 2.0 - InvaderBulletWidth / 2.0,
                                                 invader.y + invader.h,
                                                 InvaderBulletWidth, InvaderBulletHeight)];
      }
    }

    /** The keydown listener, which stays installed after the game ends; currentTime is
        the Date.now() it reads. */
    method KeyDown(key: string, currentTime: int)
      modifies this
      ensures Snapshot() == Rules.KeyDown(old(Snapshot()), key, currentTime, canvasWidth)
    {
      if key == "ArrowLeft" {
        player := player.(x := Max(0.0, player.x - PlayerStep));
      } else if key == "ArrowRight" {
        player := player.(x := Min(canvasWidth - PlayerWidth, player.x + PlayerStep));
      } else if key == " " {
        if currentTime - lastShotTime >= FireCooldown {
          bullets := bullets + [Rect(player.x + PlayerWidth / 2.0 - PlayerBulletWidth / 2.0, player.y,
                                     PlayerBulletWidth, PlayerBulletHeight)];
          lastShotTime := currentTime;
        }
      }
    }
  }
}
