/** game.js as written where it differs from module Rules: the array loops that call
    splice inside forEach, and the order in which one tick writes its messages. Each
    definition here is set beside a concrete input on which it and Rules disagree;
    the rest of the project uses the definitions of Rules. */
module AsWritten {
  import opened Geometry
  import opened Rules

  /** arr.splice(k, 1): removes the element at index k, if there is one, and shifts the
      elements after it down by one. */
  function Splice(s: seq<Rect>, k: nat): (r: seq<Rect>)
    ensures k < |s| ==> |r| == |s| - 1 && forall j :: 0 <= j < |r| ==> r[j] == (if j < k then s[j] else s[j + 1])
    ensures k >= |s| ==> r == s
  {
    if k < |s| then Without(s, k) else s
  }

  // forEach visits the indices 0 .. n-1 of an array that had n elements when the loop
  // began, skipping those no longer present; after a splice at index i the element that
  // moved down into index i is therefore never visited.

  /** The player-bullet loop of game.js:272-277, from index i on. */
  function RiseLoop(bs: seq<Rect>, i: nat, n: nat): seq<Rect>
    decreases n - i
  {
    if i >= n || i >= |bs| then bs
    else
      var b := Rise(bs[i]);
      if b.y + PlayerBulletHeight < 0.0 then RiseLoop(Splice(bs, i), i + 1, n)
      else RiseLoop(bs[i := b], i + 1, n)
  }

  function AdvancePlayerBulletsAsWritten(bs: seq<Rect>): seq<Rect>
  {
    RiseLoop(bs, 0, |bs|)
  }

  /** A bullet that leaves the top removes the next bullet from the loop: that one is not
      moved this tick. */
  lemma SkippedPlayerBullet()
    ensures var gone, next := Rect(0.0, -20.0, 20.0, 20.0), Rect(0.0, 100.0, 20.0, 20.0);
      && AdvancePlayerBulletsAsWritten([gone, next]) == [next]
      && AdvancePlayerBullets([gone, next]) == [Rect(0.0, 93.0, 20.0, 20.0)]
  {
    var gone, next := Rect(0.0, -20.0, 20.0, 20.0), Rect(0.0, 100.0, 20.0, 20.0);
    assert Splice([gone, next], 0) == [next];
    assert RiseLoop([gone, next], 0, 2) == RiseLoop([next], 1, 2) == [next];
    assert Risen([gone, next]) == [Rise(gone), Rise(next)];
    assert [Rise(gone), Rise(next)][..1] == [Rise(gone)];
    assert [Rise(gone)][..0] == [];
    assert Retain([Rise(gone)], BelowTop) == [];
  }

  /** The invader-bullet loop of game.js:280-296, from index i on: the bullets left and
      whether a visited bullet, once moved, overlapped the player. */
  datatype Fallout = Fallout(bullets: seq<Rect>, hit: bool)

  function FallLoop(bs: seq<Rect>, p: Rect, height: real, i: nat, n: nat, hit: bool): Fallout
    decreases n - i
  {
    if i >= n || i >= |bs| then Fallout(bs, hit)
    else
      var b := Fall(bs[i]);
      var hit' := hit || Overlaps(b, p);
      if b.y > height then FallLoop(Splice(bs, i), p, height, i + 1, n, hit')
      else FallLoop(bs[i := b], p, height, i + 1, n, hit')
  }

  function AdvanceInvaderBulletsAsWritten(bs: seq<Rect>, p: Rect, height: real): Fallout
  {
    FallLoop(bs, p, height, 0, |bs|, false)
  }

  /** A bullet that leaves the bottom hides the next one from the loop: on a 600-pixel
      canvas the bullet that would hit the player is neither moved nor compared with the player. */
  lemma SkippedInvaderBullet()
    ensures var player := Rect(0.0, 540.0, 50.0, 50.0);
      var gone, next := Rect(0.0, 598.0, 10.0, 10.0), Rect(10.0, 540.0, 10.0, 10.0);
      && AdvanceInvaderBulletsAsWritten([gone, next], player, 600.0) == Fallout([next], false)
      && AdvanceInvaderBullets([gone, next], 600.0) == [Fall(next)]
      && AnyOverlap(Fallen([gone, next]), player)
  {
    var player := Rect(0.0, 540.0, 50.0, 50.0);
    var gone, next := Rect(0.0, 598.0, 10.0, 10.0), Rect(10.0, 540.0, 10.0, 10.0);
    assert Splice([gone, next], 0) == [next];
    assert FallLoop([gone, next], player, 600.0, 0, 2, false) == FallLoop([next], player, 600.0, 1, 2, false);
    assert Fallen([gone, next]) == [Fall(gone), Fall(next)];
    assert [Fall(gone), Fall(next)][..1] == [Fall(gone)];
    assert [Fall(gone)][..0] == [];
    assert Retain([Fall(gone)], AboveBottom(600.0)) == [];
    assert Overlaps(Fallen([gone, next])[1], player);
  }

  /** The inner forEach of game.js:300-312 for the bullet that was at index bi when the
      outer loop reached it, from invader index ii on, over an invader array that had m
      elements when the inner loop began. The bullet keeps being compared with invaders after it has been
      spliced out, and each further hit splices index bi again. */
  function InnerLoop(bullet: Rect, bi: nat, ii: nat, m: nat, st: Volley): Volley
    decreases m - ii
  {
    if ii >= m || ii >= |st.invaders| then st
    else if Overlaps(bullet, st.invaders[ii]) then
      InnerLoop(bullet, bi, ii + 1, m, Volley(Splice(st.bullets, bi), Splice(st.invaders, ii), st.kills + 1))
    else InnerLoop(bullet, bi, ii + 1, m, st)
  }

  /** The outer forEach of game.js:299-313, from bullet index bi on. */
  function OuterLoop(bi: nat, n: nat, st: Volley): Volley
    decreases n - bi
  {
    if bi >= n || bi >= |st.bullets| then st
    else OuterLoop(bi + 1, n, InnerLoop(st.bullets[bi], bi, 0, |st.invaders|, st))
  }

  function ResolveAsWritten(bs: seq<Rect>, invs: seq<Rect>): Volley
  {
    OuterLoop(0, |bs|, Volley(bs, invs, 0))
  }

  /** One bullet over three stacked invaders destroys two of them (20 points), and takes
      with it a second bullet that hit nothing. Rules.Resolve destroys one invader and
      keeps the second bullet. */
  lemma OneBulletTwoKills()
    ensures var shot, miss, v := Rect(0.0, 0.0, 20.0, 20.0), Rect(500.0, 500.0, 20.0, 20.0), Rect(0.0, 0.0, 60.0, 45.0);
      && ResolveAsWritten([shot, miss], [v, v, v]) == Volley([], [v], 2)
      && Resolve([shot, miss], [v, v, v]) == Volley([miss], [v, v], 1)
  {
    var shot, miss, v := Rect(0.0, 0.0, 20.0, 20.0), Rect(500.0, 500.0, 20.0, 20.0), Rect(0.0, 0.0, 60.0, 45.0);
    var st0 := Volley([shot, miss], [v, v, v], 0);
    var st1 := Volley([miss], [v, v], 1);
    var st2 := Volley([], [v], 2);
    assert Splice([shot, miss], 0) == [miss] && Splice([v, v, v], 0) == [v, v];
    assert Splice([miss], 0) == [] && Splice([v, v], 1) == [v];
    assert InnerLoop(shot, 0, 0, 3, st0) == InnerLoop(shot, 0, 1, 3, st1);
    assert InnerLoop(shot, 0, 1, 3, st1) == InnerLoop(shot, 0, 2, 3, st2) == st2;
    assert OuterLoop(0, 2, st0) == OuterLoop(1, 2, st2) == st2;
    assert [shot, miss][..1] == [shot];
    assert [shot][..0] == [];
    assert Without([v, v, v], 0) == [v, v];
    assert Resolve([shot], [v, v, v]) == Volley([], [v, v], 1);
  }

  /** The message a tick leaves in game.js: "Game Over!" for a hit or for a reached
      player, then "You Win!" over it if the invaders are gone. */
  function VerdictAsWritten(hit: bool, reached: bool, cleared: bool): Outcome
  {
    if cleared then Won else if hit || reached then Lost else Ongoing
  }

  /** One run of the simulation interval of game.js:246-326 as written: the movement of
      module Rules, the three splice loops above, and the messages written in the
      source's order. */
  function TickAsWritten(s: State, width: real, height: real): State
  {
    if s.outcome != Ongoing then s
    else
      var m := MoveStep(s, width);
      var fall := AdvanceInvaderBulletsAsWritten(m.invaderBullets, m.player, height);
      var v := ResolveAsWritten(AdvancePlayerBulletsAsWritten(m.bullets), m.invaders);
      var score := s.score + KillScore * v.kills;
      m.(bullets := v.bullets, invaders := v.invaders, invaderBullets := fall.bullets,
         score := score, shownScore := if v.kills > 0 then score else s.shownScore,
         outcome := VerdictAsWritten(fall.hit, Reached(v.invaders, m.player), v.invaders == []))
  }

  /** A tick in which an invader bullet hits the player and the last invader is destroyed
      ends with "You Win!" on screen; Rules.Tick makes it a loss. */
  lemma WinOverwritesLoss()
    ensures var player, shot, drop, v :=
        Rect(100.0, 540.0, 50.0, 50.0), Rect(310.0, 120.0, 20.0, 20.0),
        Rect(110.0, 530.0, 10.0, 10.0), Rect(300.0, 100.0, 60.0, 45.0);
      var s := State(player, [v], [shot], [drop], 0, 0, 0, true, Ongoing);
      && TickAsWritten(s, 800.0, 600.0).outcome == Won
      && Tick(s, 800.0, 600.0).outcome == Lost
  {
    var player, shot, drop, v :=
      Rect(100.0, 540.0, 50.0, 50.0), Rect(310.0, 120.0, 20.0, 20.0),
      Rect(110.0, 530.0, 10.0, 10.0), Rect(300.0, 100.0, 60.0, 45.0);
    var s := State(player, [v], [shot], [drop], 0, 0, 0, true, Ongoing);
    var moved := Shift(v, true);
    assert Shifted([v], true) == [moved];
    assert !AnyCrossed([moved], true, 800.0);
    assert MoveStep(s, 800.0) == s.(invaders := [moved]);
    assert Overlaps(Fall(drop), player);
    assert [drop][0 := Fall(drop)] == [Fall(drop)];
    assert FallLoop([drop], player, 600.0, 0, 1, false) == FallLoop([Fall(drop)], player, 600.0, 1, 1, true);
    assert AdvanceInvaderBulletsAsWritten([drop], player, 600.0).hit;
    assert [shot][0 := Rise(shot)] == [Rise(shot)];
    assert RiseLoop([shot], 0, 1) == RiseLoop([Rise(shot)], 1, 1);
    assert AdvancePlayerBulletsAsWritten([shot]) == [Rise(shot)];
    assert Overlaps(Rise(shot), moved);
    assert Splice([Rise(shot)], 0) == [] && Splice([moved], 0) == [];
    assert InnerLoop(Rise(shot), 0, 0, 1, Volley([Rise(shot)], [moved], 0)) == Volley([], [], 1);
    assert ResolveAsWritten([Rise(shot)], [moved]).invaders == [];
    assert Overlaps(Fallen([drop])[0], player);
  }
}
