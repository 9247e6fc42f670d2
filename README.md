# Space Invaders game state, in Dafny

This project models the game-state simulator of `game.js`, a browser Space Invaders
game. It covers the player ship, the invader formation, the player's and the
invaders' bullets, the score, the fire cooldown and the outcome (ongoing, won or
lost). The simulator changes this state in four ways:

- the simulation interval (every 33 ms) moves the formation, moves and culls the
  bullets, resolves collisions, scores, and checks for a loss or a win;
- the enemy-fire interval (every 2000 ms) drops a bullet under a random invader;
- the keydown listener moves the ship with clamping, and fires with a 1000 ms
  cooldown;
- start-up places the ship and fills a 4 × 8 grid of invader cells at random.

The project has these modules:

- `Geometry` (`geometry.dfy`): screen rectangles and the strict bounding-box
  overlap test used for every collision.
- `Rules` (`rules.dfy`): the state as a value (`State`), and each transition as a
  function. `Tick` is built from the steps `MoveStep`, `BulletStep`, `FallStep`,
  `CollisionStep` and `EndStep`. The module also has `EnemyFire`, `KeyDown` and
  `Initial`.
- `Game` (`game.dfy`): the class `Game.Game`. Its fields are the module-level
  variables of `game.js`, updated in place by methods with loops, as the source
  does. Each method is proved to leave exactly the state that the matching
  `Rules` function computes from the old state (`Snapshot()`).
- `Properties` (`properties.dfy`): what the transitions guarantee. This covers
  formation movement, bullet culling and order, scoring, outcomes, fire cooldown,
  enemy fire and the initial grid. A `Wellformed` invariant is preserved by every
  transition and along any sequence of events (`Run`).
- `AsWritten` (`aswritten.dfy`): the array loops of `game.js` exactly as written
  (`splice` inside `forEach`, and the order in which messages are written). Each
  one is set beside a concrete input on which it differs from `Rules`; see
  "Findings".

Design decisions:

- Coordinates are `real`. The canvas size is a pair of positive naturals given to
  the constructor. Its half-width may be fractional, and the only operations are
  additions, subtractions and halvings by constants, so no value is rounded.
- The bullet loops use retained-collection semantics, and each bullet removes the
  first invader it overlaps and vanishes with it. Both are applied to a snapshot
  of the arrays, so no element is skipped.
- A tick that loses does not then show "You Win!" (loss takes precedence).
  `game.js` calls `clearInterval` but goes on running the rest of the callback.
  The model also runs the rest of the tick, so bullets, invaders and score are
  updated in a lost tick too. Only the message is not overwritten.
- `game.js` clears only the simulation interval, at lines 294 and 318, and the
  rest of that callback still runs. The enemy-fire interval of line 329 and the
  keydown listener of line 353 stay active after the game ends. The model follows
  this: `Tick` is a no-op once the outcome is not `Ongoing`, while `EnemyFire` and
  `KeyDown` keep working.
- Randomness is supplied as input. `mask` holds the 32 grid draws, row by row;
  cell (i, j) is filled when `mask[8 * i + j]` holds. `game.js` fills a cell when
  its draw is below 0.7. `choice` is the invader index drawn by the enemy fire.
  `Date.now()` is the `currentTime` argument of `KeyDown`.
- `updateScoreDisplay` is modelled as the field `shownScore`, the last value the
  readout displayed. `displayMessage` together with `clearInterval` is modelled as
  the field `outcome`.

## Model

| member | source | states |
|---|---|---|
| Geometry.OverlapsSymmetric | game.js:301-306 | the overlap test gives the same answer with its two boxes swapped |
| Geometry.EdgeContactIsNoOverlap | game.js:301-306 | boxes that only share a vertical or horizontal edge do not collide (the test is strict) |
| Geometry.IdenticalBoxesOverlap | game.js:288-291 | a box of positive size collides with an identical box |
| Rules.RetainSpec | game.js:272-284 | the retained collection holds exactly the elements that pass the keep test, every copy of each, in their original order |
| Rules.RetainCounts | game.js:272-284 | each element is kept as many times as it occurs if it passes the keep test, and not at all otherwise |
| Rules.RetainOrder | game.js:272-284 | the retained elements are in their original order |
| Rules.WithoutMultiset | game.js:308 | removing the invader at index k removes exactly that invader |
| Rules.FirstOverlap | game.js:300-306 | the index found is that of an invader the bullet overlaps, and the bullet overlaps no invader before it; the index is the length when it overlaps none |
| Rules.Resolve | game.js:299-313 | each kill removes exactly one bullet and one invader |
| Rules.ResolveStep | game.js:299-313 | the rule for each next bullet, against the invaders the earlier bullets left: if it overlaps none of them it stays and nothing else changes; otherwise it goes together with the first invader it overlaps, as one kill |
| Rules.ResolveOneBullet | game.js:300-311 | a single bullet stays if it overlaps no invader; otherwise it and invs[k] go, for the k it overlaps with no earlier invader overlapping |
| Rules.ResolveAccounts | game.js:299-313 | no bullet appears; every copy of a bullet that overlaps no invader stays; every bullet that goes overlaps some invader; every invader that goes is overlapped by a bullet that goes |
| Rules.ResolveMisses | game.js:299-313 | the bullets left are a sub-multiset of the bullets, and a bullet that overlaps no invader keeps every copy |
| Rules.ResolveBlame | game.js:299-313 | every invader removed is overlapped by some bullet removed |
| Rules.SubsequenceMembers | game.js:272-313 | an order-preserving selection holds nothing that was not in the collection |
| Rules.ResolveKeepsOrder | game.js:299-313 | the bullets left by the collision check are some of the bullets, in their original order |
| Rules.ResolveRemovesInvaders | game.js:299-313 | the invaders left are a sub-multiset of the invaders before |
| Rules.ResolveClears | game.js:299-313 | no bullet left overlaps an invader left |
| Rules.ResolveSpec | game.js:299-313 | the above four together: order kept, nothing new, no surviving overlap |
| Rules.FallenOverlap | game.js:280-296 | some moved invader bullet overlaps the player iff some bullet, once moved 5 down, overlaps it |
| Rules.Verdict | game.js:315-325 | the tick is lost iff a bullet hit the player or an invader reached the player's row, and won iff no invader is left and it is not lost |
| Game.Game.constructor | game.js:186-207 | the player is centred 10 pixels above the bottom, the invaders are the filled cells of the 4 × 8 grid in push order, and score, shot time, direction and outcome start at 0, 0, right, ongoing |
| Game.Game.Tick | game.js:246-326 | one run of the simulation interval leaves the state that `Rules.Tick` computes |
| Game.Game.MoveInvaders | game.js:249-269 | the two formation loops and the direction flag leave the formation `Rules.MoveStep` computes |
| Game.Game.AdvanceBullets | game.js:272-277 | the player-bullet loop leaves the moved bullets still on screen, as `Rules.BulletStep` states |
| Game.Game.AdvanceInvaderBullets | game.js:279-296 | the invader-bullet loop leaves the moved bullets still on screen, and sets the outcome to lost iff a moved bullet overlaps the player (`Rules.FallStep`) |
| Game.Game.ResolveCollisions | game.js:298-313 | the collision loop leaves the bullets and invaders of `Rules.Resolve`, adds 10 per kill, and refreshes the readout iff something was killed (`Rules.CollisionStep`) |
| Game.Game.Collide | game.js:299-313 | the bullet loop over snapshots computes exactly `Rules.Resolve`; kills equal bullets removed and invaders removed |
| Game.Game.FirstHit | game.js:300-306 | the inner search returns the first invader the bullet overlaps, or the length if none |
| Game.Game.EnemyFire | game.js:329-341 | one run of the enemy-fire interval leaves the state `Rules.EnemyFire` computes |
| Game.Game.KeyDown | game.js:353-375 | one keydown leaves the state `Rules.KeyDown` computes |
| Properties.SubsequenceTransitive | game.js:272-313 | an order-preserving selection of an order-preserving selection is one |
| Properties.FormationStep | game.js:249-269 | every invader moves exactly 3 pixels in the current direction; the direction flips, and every invader drops exactly 45, iff some invader crosses the edge it moves towards; sizes stay the same |
| Properties.AdvancePlayerBulletsSpec | game.js:272-277 | the surviving player bullets are exactly the bullets moved 7 up whose bottom edge is not above the screen, every copy of each, in their original order |
| Properties.AdvanceInvaderBulletsSpec | game.js:280-284 | the surviving invader bullets are exactly the bullets moved 5 down whose top edge is not below the screen, every copy of each, in their original order |
| Properties.OneHit | game.js:299-313 | a bullet over an invader removes both and counts one kill |
| Properties.TickScore | game.js:309 | a tick adds exactly 10 per invader removed; the score never goes down and the invader count never goes up |
| Properties.TickBullets | game.js:272-284 | after a tick no player bullet is above the screen and no invader bullet below it, and both bullet lists keep their order |
| Properties.TickFrame | game.js:246-326 | a tick never moves the player or changes the time of the last shot, and a readout that matched the score still matches it |
| Properties.TickOutcome | game.js:287-325 | a tick is lost iff a moved invader bullet overlaps the player or an invader reaches the player's row, and won iff no invader is left and no bullet hit |
| Properties.TickAfterEnd | game.js:294 | once a message is shown, further ticks leave the state unchanged |
| Properties.EmptyFormationWins | game.js:321-325 | with no invader left and no bullet on the player the tick is won, and the next tick changes nothing |
| Properties.BulletOnPlayerLoses | game.js:286-295 | an invader bullet whose box, once moved, equals the player's box loses the game |
| Properties.ArrowKeys | game.js:356-361 | ArrowLeft sets x to x − 10, or to 0 when less than 10 is left; ArrowRight sets x to x + 10, or to width − 50 when less than 10 is left; the player stays in [0, width − 50] and nothing else changes |
| Properties.OtherKeys | game.js:355-374 | keys other than the arrows and space change nothing |
| Properties.Fire | game.js:362-372 | space adds exactly one bullet, at (x + 25 − 10, y) of the player, and sets the shot time, iff 1000 ms have passed since the last shot; otherwise nothing changes |
| Properties.DoublePress | game.js:362-372 | two presses less than 1000 ms apart fire at most one bullet, and exactly one if the first was past the cooldown |
| Properties.EnemyShot | game.js:329-341 | the enemy fire adds exactly one bullet iff invaders are left, centred under the chosen invader at its bottom edge; nothing else changes |
| Properties.EnemyShotPosition | game.js:333-336 | for a standard invader the bullet starts at (x + 30 − 5, y + 45) |
| Properties.CellPosition | game.js:199-202 | cell (i, j) is at x = 80 j + 40, y = 65 i + 40, sized 60 × 45 |
| Properties.GridRowCells | game.js:196-205 | the invaders a grid row pushes are exactly its filled cells |
| Properties.GridCells | game.js:195-207 | the initial invaders are exactly the filled cells of the grid |
| Properties.GridRowSize | game.js:196-205 | a grid row pushes one invader per filled draw |
| Properties.GridSize | game.js:195-207 | the grid pushes one invader per filled draw |
| Properties.FilledSplit | game.js:197 | the count of filled draws adds up over two parts of the mask |
| Properties.InitialState | game.js:186-207 | the game starts with one invader per filled draw of the 4 × 8 grid, the player centred 10 above the bottom, both bullet lists empty, score and readout 0 and no shot yet (game.js:42-43), moving right (game.js:377) and ongoing |
| Properties.CellsApart | game.js:199-200 | two different cells of the grid do not overlap |
| Properties.GridApart | game.js:195-207 | no two initial invaders overlap |
| Properties.InitialWellformed | game.js:186-207 | the initial state satisfies the invariant when the canvas is at least as wide as the player |
| Properties.MoveStepWellformed | game.js:249-269 | moving the formation keeps the invariant |
| Properties.BulletStepWellformed | game.js:272-277 | moving the player bullets keeps the invariant |
| Properties.FallStepWellformed | game.js:280-296 | moving the invader bullets keeps the invariant |
| Properties.CollisionStepWellformed | game.js:299-313 | the collision check keeps the invariant, including a score that is a multiple of 10 and shown on the readout |
| Properties.TickWellformed | game.js:246-326 | a tick keeps the invariant |
| Properties.KeyDownWellformed | game.js:353-375 | a keydown keeps the invariant, including the player on the canvas |
| Properties.EnemyFireWellformed | game.js:329-341 | the enemy fire keeps the invariant |
| Properties.Pick | game.js:331 | the drawn index always names an invader, when there is one, and a draw already in range picks that invader |
| Properties.RunInvariants | game.js:246-375 | along any sequence of ticks, enemy shots and key presses: the invariant holds, the score never goes down, invaders never come back, and a shown outcome never changes |
| Properties.StartWellformed | game.js:186-375 | every state reachable from start-up satisfies the invariant |
| Geometry.Overlaps | game.js:301-306 | definition: the strict bounding-box test, all four comparisons strict; its properties are the three Geometry lemmas |
| Rules.MoveStep | game.js:249-269 | definition: the formation step; proved about in Properties.FormationStep and implemented by Game.Game.MoveInvaders |
| Rules.BulletStep | game.js:272-277 | definition: the player-bullet step; proved about in Properties.AdvancePlayerBulletsSpec |
| Rules.FallStep | game.js:280-296 | definition: the invader-bullet step with the hit on the player; proved about in Properties.AdvanceInvaderBulletsSpec and Rules.FallenOverlap |
| Rules.CollisionStep | game.js:299-313 | definition: the collision step with 10 points per kill; proved about in Rules.ResolveAccounts and Properties.TickScore |
| Rules.EndStep | game.js:315-325 | definition: the end-of-tick checks through Rules.Verdict |
| Rules.Tick | game.js:246-326 | definition: the five steps in the source's order, a no-op once the outcome is set; proved about in Properties.TickScore, TickBullets, TickOutcome and TickAfterEnd |
| Rules.EnemyFire | game.js:329-341 | definition: one bullet under the chosen invader when one is left; proved about in Properties.EnemyShot |
| Rules.KeyDown | game.js:353-375 | definition: clamped arrow moves and the 1000 ms fire rule; proved about in Properties.ArrowKeys, OtherKeys, Fire and DoublePress |
| Rules.Cell | game.js:199-202 | definition: the box of grid cell (i, j); proved about in Properties.CellPosition and CellsApart |
| Rules.GridRow | game.js:196-205 | definition: the invaders one row of the nested loop pushes; proved about in Properties.GridRowCells and GridRowSize |
| Rules.Grid | game.js:195-207 | definition: the invaders the nested loop pushes, in push order; proved about in Properties.GridCells, GridSize and GridApart |
| Rules.Initial | game.js:186-207 | definition: the start-up state; proved about in Properties.InitialState and InitialWellformed |
| AsWritten.RiseLoop | game.js:272-277 | definition: the player-bullet forEach with splice, as written; exhibited in AsWritten.SkippedPlayerBullet |
| AsWritten.FallLoop | game.js:280-296 | definition: the invader-bullet forEach with splice and the player test, as written; exhibited in AsWritten.SkippedInvaderBullet |
| AsWritten.InnerLoop | game.js:300-312 | definition: the inner forEach over invaders with both splices, as written; exhibited in AsWritten.OneBulletTwoKills |
| AsWritten.OuterLoop | game.js:299-313 | definition: the outer forEach over bullets, as written; exhibited in AsWritten.OneBulletTwoKills |
| AsWritten.VerdictAsWritten | game.js:315-325 | definition: the messages in the order game.js writes them; used by AsWritten.TickAsWritten |
| AsWritten.Splice | game.js:275 | splice at an index inside the array removes that element and shifts the later ones down by one; outside it changes nothing |
| AsWritten.SkippedPlayerBullet | game.js:272-277 | as written, a bullet leaving the top hides the next bullet from the loop, so that bullet does not move |
| AsWritten.SkippedInvaderBullet | game.js:280-296 | as written, an invader bullet leaving the bottom hides the next one, which would have hit the player |
| AsWritten.OneBulletTwoKills | game.js:299-313 | as written, one bullet destroys two stacked invaders and takes a bullet that missed with it |
| AsWritten.TickAsWritten | game.js:246-326 | definition: one tick with the three splice loops and the messages in the order game.js writes them; exhibited in AsWritten.WinOverwritesLoss |
| AsWritten.WinOverwritesLoss | game.js:287-325 | on a concrete state where an invader bullet lands on the player and the last invader is shot, the as-written tick ends showing "You Win!" while Rules.Tick ends lost |

## Left out

- The WebGL pipeline is not modelled. This covers the shader sources, `createShader`, program linking, buffers, `drawObject`, `render` and the `mat4` calls. It is foreign graphics code with no state the simulator reads.
- `createTexture` and the asynchronous `image.onload` callback are not modelled; entities carry no texture.
- The DOM bodies of `updateScoreDisplay` and `displayMessage` are not modelled. They appear only as the fields `shownScore` and `outcome`. The readout text before the first kill is not part of this model, and `shownScore` starts at 0.
- `setInterval`, `requestAnimationFrame` and `clearInterval` are not modelled. They become the methods `Tick` and `EnemyFire`, which the caller invokes, and the `outcome` field, which disables `Tick`. `Date.now()` becomes the `currentTime` argument. Interleaving between the intervals, the listener and rendering is not modelled; each event runs to completion.
- `Math.random()` is not modelled. The grid draws become `mask`, and the enemy's target becomes `choice`. `Properties.Pick` maps any draw to an index, and the 0.7 probability is not modelled.
- `window.innerWidth` and `window.innerHeight` are not modelled; they are the constructor's `width` and `height`.
- Game.Game.ResolveCollisions: adds `10 * kills` once after the loop rather than 10 per kill inside it. It refreshes the readout once rather than after each kill. The final score and readout are the same.
- The element skipping of `splice` inside `forEach` is kept only in module `AsWritten`. Every other part of the model uses the corrected behaviour in "Findings".

## Findings

| source | as written | input that shows it | evidently intended | confidence | as-written member | corrected member |
|---|---|---|---|---|---|---|
| game.js:272-277 | `bullets.splice(index, 1)` inside `bullets.forEach` shifts the next bullet into the current index, so the loop never visits it this tick | bullets at y = −20 and y = 100: the second stays at 100 instead of moving to 93 | every bullet moves 7 up, and the off-screen ones are removed | high, not executed | AsWritten.SkippedPlayerBullet | Properties.AdvancePlayerBulletsSpec |
| game.js:280-296 | the same splice skip over the invader bullets also skips the player-collision test for the skipped bullet | 600-pixel canvas, player at (0, 540, 50, 50), bullets at y = 598 and at (10, 540): the second neither moves nor hits, and the game goes on | every bullet moves 5 down and is tested against the player | high, not executed | AsWritten.SkippedInvaderBullet | Properties.AdvanceInvaderBulletsSpec |
| game.js:299-313 | both arrays are spliced inside nested `forEach` loops: the dead bullet keeps testing later invaders, and each further hit splices whatever bullet now sits at its index | bullet (0, 0, 20, 20) and a missing bullet (500, 500), over three invaders at (0, 0): 2 kills, both bullets gone | a bullet destroys the first invader it overlaps and vanishes with it: 1 kill, the missing bullet stays | high, not executed | AsWritten.OneBulletTwoKills | Rules.ResolveAccounts |
| game.js:287-325 | "Game Over!" is written when a bullet hits the player, but the tick goes on, and "You Win!" is written over it if the last invader dies in the same tick | player (100, 540, 50, 50), invader bullet (110, 530, 10, 10), the only invader (300, 100, 60, 45) moving right and a bullet (310, 120, 20, 20) under it, on an 800 × 600 canvas | a loss stands; the game is not both lost and won | medium, not executed | AsWritten.WinOverwritesLoss | Properties.TickOutcome |
