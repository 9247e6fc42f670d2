/** The game state of game.js as a value, and each of its transitions as a function:
    the simulation tick, the enemy-fire tick, the key handler and the initial set-up.
    The class Game.Game runs the same transitions in place and is proved against these. */
module Rules {
  import opened Geometry

  // Sizes and speeds, in pixels and pixels per tick (game.js:20-38).
  const PlayerWidth: real := 50.0
  const PlayerHeight: real := 50.0
  const PlayerBulletWidth: real := 20.0
  const PlayerBulletHeight: real := 20.0
  const PlayerBulletSpeed: real := 7.0
  const InvaderWidth: real := 60.0
  const InvaderHeight: real := 45.0
  const InvaderSpeed: real := 3.0
  const InvaderBulletWidth: real := 10.0
  const InvaderBulletHeight: real := 10.0
  const InvaderBulletSpeed: real := 5.0

  /** How far the player moves per arrow key, and the fire cooldown in milliseconds. */
  const PlayerStep: real := 10.0
  const FireCooldown: int := 1000
  /** Points per invader destroyed. */
  const KillScore: int := 10

  /** The invader grid: 4 rows of 8 cells, each filled or not by a random draw. */
  const Rows: nat := 4
  const Columns: nat := 8

  /** The message shown on the page: none yet, "You Win!" or "Game Over!". Once it is not
      Ongoing the simulation interval has been cleared. */
  datatype Outcome = Ongoing | Won | Lost

  /** Everything the simulation, the enemy-fire interval and the key handler share. */
  datatype State = State(
    player: Rect,
    invaders: seq<Rect>,
    bullets: seq<Rect>,
    invaderBullets: seq<Rect>,
    score: int,
    shownScore: int,     // the value the score readout last displayed
    lastShotTime: int,
    moveRight: bool,
    outcome: Outcome)

  // ----- Sequences of entities -----

  /** r is s with some elements deleted, the rest in their original order. */
  predicate IsSubsequence(r: seq<Rect>, s: seq<Rect>)
    decreases |s|
  {
    if r == [] then true
    else if s == [] then false
    else (r[|r| - 1] == s[|s| - 1] && IsSubsequence(r[..|r| - 1], s[..|s| - 1]))
         || IsSubsequence(r, s[..|s| - 1])
  }

  /** The elements of s that keep accepts, in order: a retained collection built on a
      snapshot, so that no element is skipped by removing its predecessor. */
  function Retain(s: seq<Rect>, keep: Rect -> bool): (r: seq<Rect>)
    ensures |r| <= |s|
    decreases |s|
  {
    if s == [] then []
    else
      var last := s[|s| - 1];
      Retain(s[..|s| - 1], keep) + (if keep(last) then [last] else [])
  }

  /** Retain keeps exactly the accepted elements, every copy of each, in their original
      order. */
  lemma RetainSpec(s: seq<Rect>, keep: Rect -> bool)
    ensures forall b :: b in Retain(s, keep) <==> b in s && keep(b)
    ensures forall b :: multiset(Retain(s, keep))[b] == if keep(b) then multiset(s)[b] else 0
    ensures IsSubsequence(Retain(s, keep), s)
  {
    RetainOrder(s, keep);
    RetainCounts(s, keep);
    forall b ensures b in Retain(s, keep) <==> b in s && keep(b) {
      assert b in Retain(s, keep) <==> b in multiset(Retain(s, keep));
    }
  }

  lemma {:induction false} RetainCounts(s: seq<Rect>, keep: Rect -> bool)
    ensures forall b :: multiset(Retain(s, keep))[b] == if keep(b) then multiset(s)[b] else 0
    decreases |s|
  {
    if s != [] {
      var last := s[|s| - 1];
      RetainCounts(s[..|s| - 1], keep);
      assert s == s[..|s| - 1] + [last];
      assert multiset(s) == multiset(s[..|s| - 1]) + multiset{last};
    }
  }

  lemma {:induction false} RetainOrder(s: seq<Rect>, keep: Rect -> bool)
    ensures IsSubsequence(Retain(s, keep), s)
    decreases |s|
  {
    if s != [] {
      var last := s[|s| - 1];
      var prev := Retain(s[..|s| - 1], keep);
      RetainOrder(s[..|s| - 1], keep);
      assert s == s[..|s| - 1] + [last];
      if keep(last) {
        assert Retain(s, keep) == prev + [last];
        assert (prev + [last])[..|prev|] == prev;
      } else {
        assert Retain(s, keep) == prev;
      }
    }
  }

  /** s without its element at index k. */
  function Without(s: seq<Rect>, k: nat): (r: seq<Rect>)
    requires k < |s|
    ensures |r| == |s| - 1
  {
    s[..k] + s[k + 1..]
  }

  /** Removing the element at k removes exactly that element. */
  lemma WithoutMultiset(s: seq<Rect>, k: nat)
    requires k < |s|
    ensures multiset(Without(s, k)) + multiset{s[k]} == multiset(s)
  {
    assert s == s[..k] + [s[k]] + s[k + 1..];
  }

  // ----- Formation movement (game.js:249-269) -----

  /** One invader moved sideways by the formation speed. */
  function Shift(v: Rect, right: bool): Rect
  {
    if right then v.(x := v.x + InvaderSpeed) else v.(x := v.x - InvaderSpeed)
  }

  /** Whether an invader that has just moved is past the edge it was moving towards. */
  predicate Crossed(v: Rect, right: bool, width: real)
  {
    if right then v.x + InvaderWidth > width else v.x < 0.0
  }

  function Shifted(invs: seq<Rect>, right: bool): (r: seq<Rect>)
    ensures |r| == |invs|
  {
    seq(|invs|, k requires 0 <= k < |invs| => Shift(invs[k], right))
  }

  function Dropped(invs: seq<Rect>): (r: seq<Rect>)
    ensures |r| == |invs|
  {
    seq(|invs|, k requires 0 <= k < |invs| => invs[k].(y := invs[k].y + InvaderHeight))
  }

  predicate AnyCrossed(invs: seq<Rect>, right: bool, width: real)
  {
    exists k :: 0 <= k < |invs| && Crossed(invs[k], right, width)
  }

  datatype Formation = Formation(invaders: seq<Rect>, moveRight: bool)

  /** Move every invader sideways; if any of them crossed an edge, reverse the direction
      and drop the whole formation by one invader height in the same tick. */
  function MoveFormation(invs: seq<Rect>, right: bool, width: real): Formation
  {
    var moved := Shifted(invs, right);
    if AnyCrossed(moved, right, width) then Formation(Dropped(moved), !right)
    else Formation(moved, right)
  }

  // ----- Bullets (game.js:272-296) -----

  function Rise(b: Rect): Rect { b.(y := b.y - PlayerBulletSpeed) }

  function Fall(b: Rect): Rect { b.(y := b.y + InvaderBulletSpeed) }

  function Risen(bs: seq<Rect>): (r: seq<Rect>)
    ensures |r| == |bs|
  {
    seq(|bs|, k requires 0 <= k < |bs| => Rise(bs[k]))
  }

  function Fallen(bs: seq<Rect>): (r: seq<Rect>)
    ensures |r| == |bs|
  {
    seq(|bs|, k requires 0 <= k < |bs| => Fall(bs[k]))
  }

  /** A player bullet stays until its bottom edge is above the top of the screen. */
  predicate BelowTop(b: Rect) { !(b.y + PlayerBulletHeight < 0.0) }

  /** An invader bullet stays until its top edge is below the bottom of the screen. */
  function AboveBottom(height: real): Rect -> bool
  {
    (b: Rect) => !(b.y > height)
  }

  function AdvancePlayerBullets(bs: seq<Rect>): seq<Rect>
  {
    Retain(Risen(bs), BelowTop)
  }

  function AdvanceInvaderBullets(bs: seq<Rect>, height: real): seq<Rect>
  {
    Retain(Fallen(bs), AboveBottom(height))
  }

  /** Whether some (already moved) invader bullet overlaps the player. */
  predicate AnyOverlap(bs: seq<Rect>, p: Rect)
  {
    exists k :: 0 <= k < |bs| && Overlaps(bs[k], p)
  }

  lemma FallenOverlap(bs: seq<Rect>, p: Rect)
    ensures AnyOverlap(Fallen(bs), p) <==> exists k :: 0 <= k < |bs| && Overlaps(Fall(bs[k]), p)
  {
    if exists k :: 0 <= k < |bs| && Overlaps(Fall(bs[k]), p) {
      var k :| 0 <= k < |bs| && Overlaps(Fall(bs[k]), p);
      assert Fallen(bs)[k] == Fall(bs[k]);
    }
  }

  // ----- Player bullets against invaders (game.js:299-313) -----

  /** Index of the first invader at or after from that the bullet overlaps, or |invs|
      if there is none. */
  function FirstOverlap(b: Rect, invs: seq<Rect>, from: nat := 0): (k: nat)
    requires from <= |invs|
    ensures from <= k <= |invs|
    ensures k < |invs| ==> Overlaps(b, invs[k])
    ensures forall j :: from <= j < k ==> !Overlaps(b, invs[j])
    decreases |invs| - from
  {
    if from == |invs| then from
    else if Overlaps(b, invs[from]) then from
    else FirstOverlap(b, invs, from + 1)
  }

  /** What is left of the bullets and the invaders, and how many invaders were destroyed. */
  datatype Volley = Volley(bullets: seq<Rect>, invaders: seq<Rect>, kills: nat)

  /** The bullets, in order, each destroying the first remaining invader it overlaps and
      vanishing with it. Here a bullet destroys at most one invader, and only a bullet that
      hit something is removed: game.js splices both arrays inside their forEach loops, which
      skips the element after each removal, can remove a bullet other than the one that hit,
      and lets one bullet destroy several invaders (see module AsWritten). */
  function Resolve(bs: seq<Rect>, invs: seq<Rect>): (r: Volley)
    ensures r.kills == |bs| - |r.bullets| == |invs| - |r.invaders|
    decreases |bs|
  {
    if bs == [] then Volley([], invs, 0)
    else
      var b := bs[|bs| - 1];
      var prev := Resolve(bs[..|bs| - 1], invs);
      var k := FirstOverlap(b, prev.invaders);
      if k < |prev.invaders| then Volley(prev.bullets, Without(prev.invaders, k), prev.kills + 1)
      else Volley(prev.bullets + [b], prev.invaders, prev.kills)
  }

  /** Resolving one more bullet after the others. */
  lemma ResolveSnoc(bs: seq<Rect>, b: Rect, invs: seq<Rect>)
    ensures var prev := Resolve(bs, invs);
      var k := FirstOverlap(b, prev.invaders);
      Resolve(bs + [b], invs)
        == if k < |prev.invaders| then Volley(prev.bullets, Without(prev.invaders, k), prev.kills + 1)
           else Volley(prev.bullets + [b], prev.invaders, prev.kills)
  {
  }

  /** The collision rule for one more bullet, after the bullets before it: it stays, and
      nothing else changes, if it overlaps no invader they left; otherwise it goes together
      with the first invader it overlaps, counted as one kill. */
  lemma ResolveStep(bs: seq<Rect>, b: Rect, invs: seq<Rect>)
    ensures var prev := Resolve(bs, invs);
      var r := Resolve(bs + [b], invs);
      && ((forall j :: 0 <= j < |prev.invaders| ==> !Overlaps(b, prev.invaders[j])) ==>
            r == Volley(prev.bullets + [b], prev.invaders, prev.kills))
      && (forall k :: 0 <= k < |prev.invaders| && Overlaps(b, prev.invaders[k]) &&
                      (forall j :: 0 <= j < k ==> !Overlaps(b, prev.invaders[j])) ==>
            r == Volley(prev.bullets, prev.invaders[..k] + prev.invaders[k + 1..], prev.kills + 1))
  {
    var prev := Resolve(bs, invs);
    ResolveSnoc(bs, b, invs);
    var first := FirstOverlap(b, prev.invaders);
    forall k | 0 <= k < |prev.invaders| && Overlaps(b, prev.invaders[k]) &&
               (forall j :: 0 <= j < k ==> !Overlaps(b, prev.invaders[j]))
      ensures k == first
    {
    }
  }

  /** A single bullet against the invaders: it destroys the first invader it overlaps and
      goes with it, or stays when it overlaps none. */
  lemma ResolveOneBullet(b: Rect, invs: seq<Rect>)
    ensures (forall j :: 0 <= j < |invs| ==> !Overlaps(b, invs[j])) ==> Resolve([b], invs) == Volley([b], invs, 0)
    ensures forall k :: 0 <= k < |invs| && Overlaps(b, invs[k]) && (forall j :: 0 <= j < k ==> !Overlaps(b, invs[j])) ==>
      Resolve([b], invs) == Volley([], invs[..k] + invs[k + 1..], 1)
  {
    ResolveStep([], b, invs);
    assert [] + [b] == [b];
  }

  /** Who goes with whom: every copy of a bullet that overlaps none of the invaders stays;
      so every bullet that goes overlaps some invader; and every invader that goes is
      overlapped by a bullet that goes. */
  lemma ResolveAccounts(bs: seq<Rect>, invs: seq<Rect>)
    ensures var r := Resolve(bs, invs);
      && multiset(r.bullets) <= multiset(bs)
      && (forall b :: (forall v :: v in invs ==> !Overlaps(b, v)) ==> multiset(r.bullets)[b] == multiset(bs)[b])
      && (forall b :: multiset(r.bullets)[b] < multiset(bs)[b] ==> exists v :: v in invs && Overlaps(b, v))
      && (forall v :: multiset(r.invaders)[v] < multiset(invs)[v] ==>
            exists b :: multiset(r.bullets)[b] < multiset(bs)[b] && Overlaps(b, v))
  {
    ResolveMisses(bs, invs);
    ResolveBlame(bs, invs);
  }

  /** Only bullets that overlap an invader go. */
  lemma {:induction false} ResolveMisses(bs: seq<Rect>, invs: seq<Rect>)
    ensures var r := Resolve(bs, invs);
      && multiset(r.bullets) <= multiset(bs)
      && (forall b :: (forall v :: v in invs ==> !Overlaps(b, v)) ==> multiset(r.bullets)[b] == multiset(bs)[b])
    decreases |bs|
  {
    if bs != [] {
      var c := bs[|bs| - 1];
      var bs' := bs[..|bs| - 1];
      var prev := Resolve(bs', invs);
      ResolveMisses(bs', invs);
      ResolveRemovesInvaders(bs', invs);
      assert bs == bs' + [c];
      assert multiset(bs) == multiset(bs') + multiset{c};
      var k := FirstOverlap(c, prev.invaders);
      if k < |prev.invaders| {
        assert Resolve(bs, invs).bullets == prev.bullets;
        assert prev.invaders[k] in invs by {
          assert prev.invaders[k] in multiset(prev.invaders);
        }
      } else {
        assert Resolve(bs, invs).bullets == prev.bullets + [c];
      }
    }
  }

  /** Every invader that goes is overlapped by a bullet that goes. */
  lemma {:induction false} ResolveBlame(bs: seq<Rect>, invs: seq<Rect>)
    ensures var r := Resolve(bs, invs);
      forall v :: multiset(r.invaders)[v] < multiset(invs)[v] ==>
        exists b :: multiset(r.bullets)[b] < multiset(bs)[b] && Overlaps(b, v)
    decreases |bs|
  {
    if bs != [] {
      var c := bs[|bs| - 1];
      var bs' := bs[..|bs| - 1];
      var prev := Resolve(bs', invs);
      var r := Resolve(bs, invs);
      ResolveBlame(bs', invs);
      ResolveMisses(bs', invs);
      assert bs == bs' + [c];
      assert multiset(bs) == multiset(bs') + multiset{c};
      var k := FirstOverlap(c, prev.invaders);
      if k < |prev.invaders| {
        var w := prev.invaders[k];
        assert r == Volley(prev.bullets, Without(prev.invaders, k), prev.kills + 1);
        WithoutMultiset(prev.invaders, k);
        forall v | multiset(r.invaders)[v] < multiset(invs)[v]
          ensures exists b :: multiset(r.bullets)[b] < multiset(bs)[b] && Overlaps(b, v)
        {
          if v == w {
            assert multiset(r.bullets)[c] < multiset(bs)[c];
          } else {
            assert multiset(prev.invaders)[v] == multiset(r.invaders)[v];
          }
        }
      } else {
        assert r == Volley(prev.bullets + [c], prev.invaders, prev.kills);
        assert multiset(r.bullets) == multiset(prev.bullets) + multiset{c};
      }
    }
  }

  /** Every element of a subsequence is an element of the sequence. */
  lemma {:induction false} SubsequenceMembers(r: seq<Rect>, s: seq<Rect>)
    requires IsSubsequence(r, s)
    ensures forall b :: b in r ==> b in s
    decreases |s|
  {
    if r != [] {
      var s' := s[..|s| - 1];
      assert s == s' + [s[|s| - 1]];
      if r[|r| - 1] == s[|s| - 1] && IsSubsequence(r[..|r| - 1], s') {
        SubsequenceMembers(r[..|r| - 1], s');
        assert r == r[..|r| - 1] + [r[|r| - 1]];
      } else {
        SubsequenceMembers(r, s');
      }
    }
  }

  /** The bullets Resolve keeps are some of the bullets, in their order. */
  lemma {:induction false} ResolveKeepsOrder(bs: seq<Rect>, invs: seq<Rect>)
    ensures IsSubsequence(Resolve(bs, invs).bullets, bs)
    decreases |bs|
  {
    if bs != [] {
      var b := bs[|bs| - 1];
      var prev := Resolve(bs[..|bs| - 1], invs);
      ResolveKeepsOrder(bs[..|bs| - 1], invs);
      assert bs == bs[..|bs| - 1] + [b];
      if FirstOverlap(b, prev.invaders) == |prev.invaders| {
        assert Resolve(bs, invs).bullets == prev.bullets + [b];
        assert (prev.bullets + [b])[..|prev.bullets|] == prev.bullets;
      }
    }
  }

  /** The invaders Resolve leaves are some of the invaders. */
  lemma {:induction false} ResolveRemovesInvaders(bs: seq<Rect>, invs: seq<Rect>)
    ensures multiset(Resolve(bs, invs).invaders) <= multiset(invs)
    decreases |bs|
  {
    if bs != [] {
      var b := bs[|bs| - 1];
      var prev := Resolve(bs[..|bs| - 1], invs);
      ResolveRemovesInvaders(bs[..|bs| - 1], invs);
      var k := FirstOverlap(b, prev.invaders);
      if k < |prev.invaders| {
        assert Resolve(bs, invs).invaders == Without(prev.invaders, k);
        WithoutMultiset(prev.invaders, k);
      }
    }
  }

  /** No bullet Resolve keeps overlaps an invader it leaves. */
  lemma {:induction false} ResolveClears(bs: seq<Rect>, invs: seq<Rect>)
    ensures var r := Resolve(bs, invs);
      forall b, v :: b in r.bullets && v in r.invaders ==> !Overlaps(b, v)
    decreases |bs|
  {
    if bs != [] {
      var b := bs[|bs| - 1];
      var prev := Resolve(bs[..|bs| - 1], invs);
      ResolveClears(bs[..|bs| - 1], invs);
      var k := FirstOverlap(b, prev.invaders);
      if k < |prev.invaders| {
        var rest := Without(prev.invaders, k);
        assert Resolve(bs, invs) == Volley(prev.bullets, rest, prev.kills + 1);
        WithoutMultiset(prev.invaders, k);
        forall v | v in rest ensures v in prev.invaders {
          assert v in multiset(rest);
        }
      } else {
        assert Resolve(bs, invs) == Volley(prev.bullets + [b], prev.invaders, prev.kills);
      }
    }
  }

  /** What Resolve leaves: bullets that were there before, in their order; invaders that
      were there before; and no surviving bullet overlapping a surviving invader. */
  lemma ResolveSpec(bs: seq<Rect>, invs: seq<Rect>)
    ensures var r := Resolve(bs, invs);
      && IsSubsequence(r.bullets, bs)
      && (forall b :: b in r.bullets ==> b in bs)
      && multiset(r.invaders) <= multiset(invs)
      && (forall v :: v in r.invaders ==> v in invs)
      && (forall b, v :: b in r.bullets && v in r.invaders ==> !Overlaps(b, v))
  {
    var r := Resolve(bs, invs);
    ResolveKeepsOrder(bs, invs);
    SubsequenceMembers(r.bullets, bs);
    ResolveRemovesInvaders(bs, invs);
    forall v | v in r.invaders ensures v in invs {
      assert v in multiset(r.invaders);
    }
    ResolveClears(bs, invs);
  }

  // ----- End of the tick (game.js:287-325) -----

  /** Whether an invader's bottom edge has reached the player's top edge. */
  predicate Reached(invs: seq<Rect>, p: Rect)
  {
    exists k :: 0 <= k < |invs| && invs[k].y + invs[k].h >= p.y
  }

  /** The message a tick leaves: losing takes precedence over winning (see module AsWritten
      for the order in which game.js writes them). */
  function Verdict(hit: bool, reached: bool, cleared: bool): (o: Outcome)
    ensures o == Lost <==> hit || reached
    ensures o == Won <==> cleared && !hit && !reached
  {
    if hit || reached then Lost else if cleared then Won else Ongoing
  }

  // ----- The simulation tick, step by step (game.js:246-326) -----

  /** The formation moves (and possibly reverses and drops). */
  function MoveStep(s: State, width: real): State
  {
    var f := MoveFormation(s.invaders, s.moveRight, width);
    s.(invaders := f.invaders, moveRight := f.moveRight)
  }

  /** The player bullets move up; those past the top are gone. */
  function BulletStep(s: State): State
  {
    s.(bullets := AdvancePlayerBullets(s.bullets))
  }

  /** The invader bullets move down; those past the bottom are gone, and the game is lost
      if a moved one overlaps the player. */
  function FallStep(s: State, height: real): State
  {
    s.(invaderBullets := AdvanceInvaderBullets(s.invaderBullets, height),
       outcome := if AnyOverlap(Fallen(s.invaderBullets), s.player) then Lost else s.outcome)
  }

  /** Bullets against invaders; each kill scores, and the readout is refreshed if any. */
  function CollisionStep(s: State): State
  {
    var v := Resolve(s.bullets, s.invaders);
    var score := s.score + KillScore * v.kills;
    s.(bullets := v.bullets, invaders := v.invaders, score := score,
       shownScore := if v.kills > 0 then score else s.shownScore)
  }

  /** The end-of-tick checks: an invader at the player's row loses, no invader left wins. */
  function EndStep(s: State): State
  {
    s.(outcome := Verdict(s.outcome == Lost, Reached(s.invaders, s.player), s.invaders == []))
  }

  /** One run of the simulation interval. Once a message is shown the interval is cleared
      and the state no longer changes. */
  function Tick(s: State, width: real, height: real): State
  {
    if s.outcome != Ongoing then s
    else EndStep(CollisionStep(FallStep(BulletStep(MoveStep(s, width)), height)))
  }

  // ----- Enemy fire (game.js:329-341) -----

  /** The bullet an invader fires, centred under it. */
  function ShotFrom(v: Rect): Rect
  {
    Rect(v.x + v.w / 2.0 - InvaderBulletWidth / 2.0, v.y + v.h, InvaderBulletWidth, InvaderBulletHeight)
  }

  /** One run of the enemy-fire interval; choice is the randomly drawn invader index. */
  function EnemyFire(s: State, choice: nat): State
    requires s.invaders != [] ==> choice < |s.invaders|
  {
    if s.invaders == [] then s
    else s.(invaderBullets := s.invaderBullets + [ShotFrom(s.invaders[choice])])
  }

  // ----- Key handler (game.js:353-375) -----

  function Max(a: real, b: real): real { if a >= b then a else b }
  function Min(a: real, b: real): real { if a <= b then a else b }

  /** The bullet the player fires, centred above the ship. */
  function ShotOf(p: Rect): Rect
  {
    Rect(p.x + PlayerWidth / 2.0 - PlayerBulletWidth / 2.0, p.y, PlayerBulletWidth, PlayerBulletHeight)
  }

  /** One keydown event, with the key's name and the time it was handled. */
  function KeyDown(s: State, key: string, now: int, width: real): State
  {
    if key == "ArrowLeft" then
      s.(player := s.player.(x := Max(0.0, s.player.x - PlayerStep)))
    else if key == "ArrowRight" then
      s.(player := s.player.(x := Min(width - PlayerWidth, s.player.x + PlayerStep)))
    else if key == " " then
      if now - s.lastShotTime >= FireCooldown then
        s.(bullets := s.bullets + [ShotOf(s.player)], lastShotTime := now)
      else s
    else s
  }

  // ----- Set-up (game.js:42-43, 186-207, 377) -----

  /** The invader in row i, column j of the grid. */
  function Cell(i: nat, j: nat): Rect
  {
    Rect((j as real) * (InvaderWidth + 20.0) + 40.0, (i as real) * (InvaderHeight + 20.0) + 40.0,
         InvaderWidth, InvaderHeight)
  }

  /** The filled cells among the first j columns of row i; mask lists the random draws
      row by row. */
  function GridRow(mask: seq<bool>, i: nat, j: nat): seq<Rect>
    requires i < Rows && j <= Columns && |mask| == Rows * Columns
  {
    if j == 0 then []
    else GridRow(mask, i, j - 1) + (if mask[Columns * i + j - 1] then [Cell(i, j - 1)] else [])
  }

  /** The filled cells of the first i rows, in the order the nested loops push them. */
  function Grid(mask: seq<bool>, i: nat): seq<Rect>
    requires i <= Rows && |mask| == Rows * Columns
  {
    if i == 0 then [] else Grid(mask, i - 1) + GridRow(mask, i - 1, Columns)
  }

  function InitialPlayer(width: real, height: real): Rect
  {
    Rect(width / 2.0 - PlayerWidth / 2.0, height - PlayerHeight - 10.0, PlayerWidth, PlayerHeight)
  }

  function Initial(mask: seq<bool>, width: real, height: real): State
    requires |mask| == Rows * Columns
  {
    State(InitialPlayer(width, height), Grid(mask, Rows), [], [], 0, 0, 0, true, Ongoing)
  }
}
