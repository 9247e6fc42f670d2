/** What the transitions of module Rules guarantee: the properties the game relies on,
    stated on the state values and proved from the definitions. */
module Properties {
  import opened Geometry
  import opened Rules

  // ----- Sequences -----

  /** Deleting elements twice is deleting elements once. */
  lemma {:induction false} SubsequenceTransitive(a: seq<Rect>, b: seq<Rect>, c: seq<Rect>)
    requires IsSubsequence(a, b) && IsSubsequence(b, c)
    ensures IsSubsequence(a, c)
    decreases |c|
  {
    if a != [] && c != [] {
      var c' := c[..|c| - 1];
      if IsSubsequence(b, c') {
        SubsequenceTransitive(a, b, c');
      } else {
        var b' := b[..|b| - 1];
        if a[|a| - 1] == b[|b| - 1] && IsSubsequence(a[..|a| - 1], b') {
          SubsequenceTransitive(a[..|a| - 1], b', c');
        } else {
          SubsequenceTransitive(a, b', c');
        }
      }
    }
  }

  // ----- Formation movement -----

  /** Whether some invader, before it moves, is one step from crossing the edge it is
      moving towards. */
  predicate WillCross(invs: seq<Rect>, right: bool, width: real)
  {
    exists k :: 0 <= k < |invs| &&
      (if right then invs[k].x + InvaderSpeed + InvaderWidth > width else invs[k].x - InvaderSpeed < 0.0)
  }

  /** Every invader moves exactly one step sideways; the formation reverses and drops by
      exactly one invader height when, and only when, some invader crosses an edge. */
  lemma FormationStep(invs: seq<Rect>, right: bool, width: real)
    ensures var f := MoveFormation(invs, right, width);
      && |f.invaders| == |invs|
      && f.moveRight == (right != WillCross(invs, right, width))
      && forall k :: 0 <= k < |invs| ==>
           && f.invaders[k].x == invs[k].x + (if right then InvaderSpeed else -InvaderSpeed)
           && f.invaders[k].y == invs[k].y + (if WillCross(invs, right, width) then InvaderHeight else 0.0)
           && f.invaders[k].w == invs[k].w && f.invaders[k].h == invs[k].h
  {
    var moved := Shifted(invs, right);
    if WillCross(invs, right, width) {
      var k :| 0 <= k < |invs| &&
        (if right then invs[k].x + InvaderSpeed + InvaderWidth > width else invs[k].x - InvaderSpeed < 0.0);
      assert Crossed(moved[k], right, width);
    }
  }

  // ----- Bullets -----

  /** The survivors of the player-bullet move are the moved bullets still on screen, every
      copy of each, in their original order. */
  lemma AdvancePlayerBulletsSpec(bs: seq<Rect>)
    ensures var r := AdvancePlayerBullets(bs);
      && IsSubsequence(r, Risen(bs))
      && (forall b :: multiset(r)[b] == if b.y + PlayerBulletHeight >= 0.0 then multiset(Risen(bs))[b] else 0)
      && (forall b :: b in r ==> b.y + PlayerBulletHeight >= 0.0)
      && (forall k :: 0 <= k < |bs| && Rise(bs[k]).y + PlayerBulletHeight >= 0.0 ==> Rise(bs[k]) in r)
      && (forall b :: b in r ==> exists k :: 0 <= k < |bs| && b == Rise(bs[k]))
  {
    RetainSpec(Risen(bs), BelowTop);
    forall k | 0 <= k < |bs| ensures Rise(bs[k]) in Risen(bs) {
      assert Risen(bs)[k] == Rise(bs[k]);
    }
  }

  /** The survivors of the invader-bullet move are the moved bullets still on screen, every
      copy of each, in their original order. */
  lemma AdvanceInvaderBulletsSpec(bs: seq<Rect>, height: real)
    ensures var r := AdvanceInvaderBullets(bs, height);
      && IsSubsequence(r, Fallen(bs))
      && (forall b :: multiset(r)[b] == if b.y <= height then multiset(Fallen(bs))[b] else 0)
      && (forall b :: b in r ==> b.y <= height)
      && (forall k :: 0 <= k < |bs| && Fall(bs[k]).y <= height ==> Fall(bs[k]) in r)
      && (forall b :: b in r ==> exists k :: 0 <= k < |bs| && b == Fall(bs[k]))
  {
    RetainSpec(Fallen(bs), AboveBottom(height));
    forall k | 0 <= k < |bs| ensures Fall(bs[k]) in Fallen(bs) {
      assert Fallen(bs)[k] == Fall(bs[k]);
    }
  }

  // ----- Collisions -----

  /** A bullet over an invader: both are gone and one kill is counted. */
  lemma OneHit(b: Rect, v: Rect)
    requires Overlaps(b, v)
    ensures Resolve([b], [v]) == Volley([], [], 1)
  {
  }

  // ----- The simulation tick -----

  /** The score goes up by exactly 10 per invader destroyed, and invaders never appear. */
  lemma TickScore(s: State, width: real, height: real)
    ensures var t := Tick(s, width, height);
      && |t.invaders| <= |s.invaders|
      && t.score == s.score + KillScore * (|s.invaders| - |t.invaders|)
      && t.score >= s.score
  {
  }

  /** A tick leaves the player and the time of the last shot alone, and the score readout
      stays in step with the score. */
  lemma TickFrame(s: State, width: real, height: real)
    ensures var t := Tick(s, width, height);
      && t.player == s.player
      && t.lastShotTime == s.lastShotTime
      && (s.shownScore == s.score ==> t.shownScore == t.score)
  {
  }

  /** After a tick no player bullet is above the screen and no invader bullet below it,
      and the bullets that are left keep their order. */
  lemma TickBullets(s: State, width: real, height: real)
    requires s.outcome == Ongoing
    ensures var t := Tick(s, width, height);
      && (forall b :: b in t.bullets ==> b.y + PlayerBulletHeight >= 0.0)
      && (forall b :: b in t.invaderBullets ==> b.y <= height)
      && IsSubsequence(t.bullets, Risen(s.bullets))
      && IsSubsequence(t.invaderBullets, Fallen(s.invaderBullets))
  {
    var f := MoveFormation(s.invaders, s.moveRight, width);
    var advanced := AdvancePlayerBullets(s.bullets);
    AdvancePlayerBulletsSpec(s.bullets);
    AdvanceInvaderBulletsSpec(s.invaderBullets, height);
    ResolveSpec(advanced, f.invaders);
    SubsequenceTransitive(Resolve(advanced, f.invaders).bullets, advanced, Risen(s.bullets));
  }

  /** How a tick ends: lost when a moved invader bullet overlaps the player or an invader
      reaches the player's row, otherwise won when no invader is left. */
  lemma TickOutcome(s: State, width: real, height: real)
    requires s.outcome == Ongoing
    ensures var t := Tick(s, width, height);
      && (t.outcome == Lost <==> AnyOverlap(Fallen(s.invaderBullets), s.player) || Reached(t.invaders, s.player))
      && (t.outcome == Won <==> t.invaders == [] && !AnyOverlap(Fallen(s.invaderBullets), s.player))
  {
  }

  /** Once a message is shown, the cleared interval changes nothing. */
  lemma TickAfterEnd(s: State, width: real, height: real)
    requires s.outcome != Ongoing
    ensures Tick(s, width, height) == s
  {
  }

  /** No invaders left and no bullet on the player: the next tick is won, and the one after
      it changes nothing. */
  lemma EmptyFormationWins(s: State, width: real, height: real)
    requires s.outcome == Ongoing && s.invaders == []
    requires !AnyOverlap(Fallen(s.invaderBullets), s.player)
    ensures Tick(s, width, height).outcome == Won
    ensures Tick(Tick(s, width, height), width, height) == Tick(s, width, height)
  {
  }

  /** An invader bullet that lands exactly on the player's box loses the game. */
  lemma BulletOnPlayerLoses(s: State, width: real, height: real, k: nat)
    requires s.outcome == Ongoing && k < |s.invaderBullets|
    requires Fall(s.invaderBullets[k]) == s.player && s.player.w > 0.0 && s.player.h > 0.0
    ensures Tick(s, width, height).outcome == Lost
  {
    assert Overlaps(Fallen(s.invaderBullets)[k], s.player);
  }

  // ----- Key handler -----

  /** An arrow key moves the player one step in the key's direction, or up to the edge
      when less than a step is left, and keeps it on the canvas; nothing else changes. */
  lemma ArrowKeys(s: State, key: string, now: int, width: real)
    requires key == "ArrowLeft" || key == "ArrowRight"
    requires 0.0 <= s.player.x <= width - PlayerWidth
    ensures var t := KeyDown(s, key, now, width);
      && t == s.(player := t.player)
      && t.player == s.player.(x := t.player.x)
      && 0.0 <= t.player.x <= width - PlayerWidth
      && -PlayerStep <= t.player.x - s.player.x <= PlayerStep
      && (key == "ArrowLeft" ==> t.player.x <= s.player.x)
      && (key == "ArrowRight" ==> t.player.x >= s.player.x)
      && (key == "ArrowLeft" ==>
            t.player.x == if s.player.x >= PlayerStep then s.player.x - PlayerStep else 0.0)
      && (key == "ArrowRight" ==>
            t.player.x == if s.player.x + PlayerStep <= width - PlayerWidth
                          then s.player.x + PlayerStep else width - PlayerWidth)
  {
  }

  /** Keys other than the arrows and the space bar are ignored. */
  lemma OtherKeys(s: State, key: string, now: int, width: real)
    requires key != "ArrowLeft" && key != "ArrowRight" && key != " "
    ensures KeyDown(s, key, now, width) == s
  {
  }

  /** The space bar fires exactly when 1000 ms have passed since the last shot: one new
      bullet, centred on the player, and the shot time is reset. */
  lemma Fire(s: State, now: int, width: real)
    ensures var t := KeyDown(s, " ", now, width);
      && (|t.bullets| == |s.bullets| + 1 <==> now - s.lastShotTime >= FireCooldown)
      && (now - s.lastShotTime >= FireCooldown ==>
            t == s.(bullets := s.bullets + [Rect(s.player.x + 25.0 - 10.0, s.player.y, 20.0, 20.0)],
                    lastShotTime := now))
      && (now - s.lastShotTime < FireCooldown ==> t == s)
  {
  }

  /** Two presses less than 1000 ms apart fire at most once, and exactly once when the
      first of them was past the cooldown. */
  lemma DoublePress(s: State, t1: int, t2: int, width: real)
    requires t2 - t1 < FireCooldown
    ensures var u := KeyDown(KeyDown(s, " ", t1, width), " ", t2, width);
      && |u.bullets| <= |s.bullets| + 1
      && (t1 - s.lastShotTime >= FireCooldown ==> |u.bullets| == |s.bullets| + 1)
  {
  }

  // ----- Enemy fire -----

  /** The enemy fires exactly one bullet when some invader is left, from under the chosen
      one; nothing else changes. */
  lemma EnemyShot(s: State, choice: nat)
    requires s.invaders != [] ==> choice < |s.invaders|
    ensures var t := EnemyFire(s, choice);
      && t == s.(invaderBullets := t.invaderBullets)
      && (|t.invaderBullets| == |s.invaderBullets| + 1 <==> s.invaders != [])
      && (s.invaders == [] ==> t == s)
      && (s.invaders != [] ==>
            var v := s.invaders[choice];
            t.invaderBullets == s.invaderBullets + [Rect(v.x + v.w / 2.0 - 5.0, v.y + v.h, 10.0, 10.0)])
  {
  }

  /** With invaders of the standard size, the shot starts 25 pixels right of the invader's
      left edge, at its bottom edge. */
  lemma EnemyShotPosition(s: State, choice: nat, width: real)
    requires Wellformed(s, width) && choice < |s.invaders|
    ensures var v := s.invaders[choice];
      EnemyFire(s, choice).invaderBullets[|s.invaderBullets|] == Rect(v.x + 25.0, v.y + 45.0, 10.0, 10.0)
  {
  }

  // ----- Set-up -----

  /** Cell (i, j) sits 80 pixels per column and 65 per row from (40, 40). */
  lemma CellPosition(i: nat, j: nat)
    ensures Cell(i, j) == Rect((j as real) * 80.0 + 40.0, (i as real) * 65.0 + 40.0, 60.0, 45.0)
  {
  }

  lemma {:induction false} GridRowCells(mask: seq<bool>, i: nat, j: nat)
    requires i < Rows && j <= Columns && |mask| == Rows * Columns
    ensures forall v :: v in GridRow(mask, i, j) <==>
      exists c :: 0 <= c < j && mask[Columns * i + c] && v == Cell(i, c)
  {
    if j > 0 {
      GridRowCells(mask, i, j - 1);
    }
  }

  /** The initial invaders are exactly the filled cells of the grid. */
  lemma {:induction false} GridCells(mask: seq<bool>, i: nat)
    requires i <= Rows && |mask| == Rows * Columns
    ensures forall v :: v in Grid(mask, i) <==>
      exists r, c :: 0 <= r < i && 0 <= c < Columns && mask[Columns * r + c] && v == Cell(r, c)
  {
    if i > 0 {
      GridCells(mask, i - 1);
      GridRowCells(mask, i - 1, Columns);
    }
  }

  /** How many of the draws fill their cell. */
  function Filled(draws: seq<bool>): nat
  {
    multiset(draws)[true]
  }

  /** One invader per filled cell. */
  lemma {:induction false} GridSize(mask: seq<bool>, i: nat)
    requires i <= Rows && |mask| == Rows * Columns
    ensures |Grid(mask, i)| == Filled(mask[..Columns * i])
  {
    if i > 0 {
      var lo := Columns * (i - 1);
      GridSize(mask, i - 1);
      GridRowSize(mask, i - 1, Columns);
      assert lo + Columns == Columns * i;
      FilledSplit(mask[..lo + Columns], lo);
      assert mask[..lo + Columns][..lo] == mask[..lo];
      assert mask[..lo + Columns][lo..] == mask[lo..lo + Columns];
    }
  }

  lemma {:induction false} GridRowSize(mask: seq<bool>, i: nat, j: nat)
    requires i < Rows && j <= Columns && |mask| == Rows * Columns
    ensures |GridRow(mask, i, j)| == Filled(mask[Columns * i..Columns * i + j])
  {
    if j > 0 {
      var lo := Columns * i;
      GridRowSize(mask, i, j - 1);
      FilledSplit(mask[lo..lo + j], j - 1);
      assert mask[lo..lo + j][..j - 1] == mask[lo..lo + j - 1];
      assert mask[lo..lo + j][j - 1..] == [mask[lo + j - 1]];
    }
  }

  lemma FilledSplit(m: seq<bool>, k: nat)
    requires k <= |m|
    ensures Filled(m) == Filled(m[..k]) + Filled(m[k..])
  {
    assert m == m[..k] + m[k..];
  }

  /** The game starts with one invader per filled draw, the player centred 10 pixels above
      the bottom edge, no bullets, a zero score and the formation moving right. */
  lemma InitialState(mask: seq<bool>, width: real, height: real)
    requires |mask| == Rows * Columns
    ensures var s := Initial(mask, width, height);
      && |s.invaders| == Filled(mask)
      && s.player.x + PlayerWidth / 2.0 == width / 2.0
      && s.player.y + s.player.h == height - 10.0
      && s.bullets == [] && s.invaderBullets == []
      && s.score == 0 && s.shownScore == 0 && s.lastShotTime == 0
      && s.moveRight && s.outcome == Ongoing
  {
    GridSize(mask, Rows);
    assert mask[..Columns * Rows] == mask;
  }

  /** Distinct cells of the grid do not overlap. */
  lemma CellsApart(i: nat, j: nat, i': nat, j': nat)
    requires i != i' || j != j'
    ensures !Overlaps(Cell(i, j), Cell(i', j'))
  {
  }

  /** No two initial invaders overlap. */
  lemma GridApart(mask: seq<bool>)
    requires |mask| == Rows * Columns
    ensures forall a, b :: a in Grid(mask, Rows) && b in Grid(mask, Rows) && a != b ==> !Overlaps(a, b)
  {
    GridCells(mask, Rows);
    forall a, b | a in Grid(mask, Rows) && b in Grid(mask, Rows) && a != b
      ensures !Overlaps(a, b)
    {
      var r, c :| 0 <= r < Rows && 0 <= c < Columns && mask[Columns * r + c] && a == Cell(r, c);
      var r', c' :| 0 <= r' < Rows && 0 <= c' < Columns && mask[Columns * r' + c'] && b == Cell(r', c');
      CellsApart(r, c, r', c');
    }
  }

  // ----- Whole-game invariants -----

  /** Every entity in a collection has the given size. */
  predicate Sized(s: seq<Rect>, w: real, h: real)
  {
    forall b :: b in s ==> b.w == w && b.h == h
  }

  /** What holds of every state the game reaches: the entity sizes of their classes, the
      player on the canvas, and a score that is a multiple of 10 which the readout shows. */
  predicate Wellformed(s: State, width: real)
  {
    && s.player.w == PlayerWidth && s.player.h == PlayerHeight
    && 0.0 <= s.player.x <= width - PlayerWidth
    && Sized(s.invaders, InvaderWidth, InvaderHeight)
    && Sized(s.bullets, PlayerBulletWidth, PlayerBulletHeight)
    && Sized(s.invaderBullets, InvaderBulletWidth, InvaderBulletHeight)
    && s.score >= 0 && s.score % KillScore == 0 && s.shownScore == s.score
  }

  lemma InitialWellformed(mask: seq<bool>, width: real, height: real)
    requires |mask| == Rows * Columns && width >= PlayerWidth
    ensures Wellformed(Initial(mask, width, height), width)
  {
    GridCells(mask, Rows);
  }

  lemma MoveStepWellformed(s: State, width: real)
    requires Wellformed(s, width)
    ensures Wellformed(MoveStep(s, width), width)
  {
  }

  lemma BulletStepWellformed(s: State, width: real)
    requires Wellformed(s, width)
    ensures Wellformed(BulletStep(s), width)
  {
    AdvancePlayerBulletsSpec(s.bullets);
    forall b | b in AdvancePlayerBullets(s.bullets) ensures b.w == PlayerBulletWidth && b.h == PlayerBulletHeight {
      var k :| 0 <= k < |s.bullets| && b == Rise(s.bullets[k]);
      assert s.bullets[k] in s.bullets;
    }
  }

  lemma FallStepWellformed(s: State, width: real, height: real)
    requires Wellformed(s, width)
    ensures Wellformed(FallStep(s, height), width)
  {
    AdvanceInvaderBulletsSpec(s.invaderBullets, height);
    forall b | b in AdvanceInvaderBullets(s.invaderBullets, height)
      ensures b.w == InvaderBulletWidth && b.h == InvaderBulletHeight
    {
      var k :| 0 <= k < |s.invaderBullets| && b == Fall(s.invaderBullets[k]);
      assert s.invaderBullets[k] in s.invaderBullets;
    }
  }

  lemma CollisionStepWellformed(s: State, width: real)
    requires Wellformed(s, width)
    ensures Wellformed(CollisionStep(s), width)
  {
    ResolveSpec(s.bullets, s.invaders);
  }

  lemma TickWellformed(s: State, width: real, height: real)
    requires Wellformed(s, width)
    ensures Wellformed(Tick(s, width, height), width)
  {
    if s.outcome == Ongoing {
      var s1 := MoveStep(s, width);
      MoveStepWellformed(s, width);
      BulletStepWellformed(s1, width);
      FallStepWellformed(BulletStep(s1), width, height);
      CollisionStepWellformed(FallStep(BulletStep(s1), height), width);
    }
  }

  lemma KeyDownWellformed(s: State, key: string, now: int, width: real)
    requires Wellformed(s, width)
    ensures Wellformed(KeyDown(s, key, now, width), width)
  {
  }

  lemma EnemyFireWellformed(s: State, choice: nat, width: real)
    requires Wellformed(s, width)
    requires s.invaders != [] ==> choice < |s.invaders|
    ensures Wellformed(EnemyFire(s, choice), width)
  {
  }

  /** Something that happens to the game: a run of the simulation interval, a run of the
      enemy-fire interval with its random draw, or a key press at a time. */
  datatype Event = SimulationTick | EnemyTick(draw: nat) | KeyPress(key: string, time: int)

  /** The invader an enemy-fire tick picks: any draw picks some invader, and a draw below
      the number of invaders picks that very invader, so every invader can be picked. */
  function Pick(s: State, draw: nat): (k: nat)
    ensures s.invaders != [] ==> k < |s.invaders|
    ensures draw < |s.invaders| ==> k == draw
  {
    if s.invaders == [] then 0 else draw % |s.invaders|
  }

  function Apply(s: State, e: Event, width: real, height: real): State
  {
    match e
    case SimulationTick => Tick(s, width, height)
    case EnemyTick(draw) => EnemyFire(s, Pick(s, draw))
    case KeyPress(key, time) => KeyDown(s, key, time, width)
  }

  function Run(s: State, events: seq<Event>, width: real, height: real): State
    decreases |events|
  {
    if events == [] then s else Run(Apply(s, events[0], width, height), events[1..], width, height)
  }

  /** Along any sequence of events the game stays well formed, the score never goes down,
      invaders never come back, and a shown message is never replaced. */
  lemma {:induction false} RunInvariants(s: State, events: seq<Event>, width: real, height: real)
    requires Wellformed(s, width)
    ensures var t := Run(s, events, width, height);
      && Wellformed(t, width)
      && t.score >= s.score
      && |t.invaders| <= |s.invaders|
      && (s.outcome != Ongoing ==> t.outcome == s.outcome)
    decreases |events|
  {
    if events != [] {
      var s' := Apply(s, events[0], width, height);
      match events[0] {
        case SimulationTick =>
          TickWellformed(s, width, height);
          TickScore(s, width, height);
        case EnemyTick(draw) =>
          EnemyFireWellformed(s, Pick(s, draw), width);
        case KeyPress(key, time) =>
          KeyDownWellformed(s, key, time, width);
      }
      RunInvariants(s', events[1..], width, height);
    }
  }

  /** The game as it starts at run time is well formed on any canvas at least as wide as
      the player. */
  lemma StartWellformed(mask: seq<bool>, width: real, height: real, events: seq<Event>)
    requires |mask| == Rows * Columns && width >= PlayerWidth
    ensures Wellformed(Run(Initial(mask, width, height), events, width, height), width)
  {
    InitialWellformed(mask, width, height);
    RunInvariants(Initial(mask, width, height), events, width, height);
  }
}
