# keep-your-color, modelled in Dafny

keep-your-color is a small side-scrolling game. Two lanes of thin vertical
walls, one per colour ("lane type"), scroll left at a constant speed. A
square player moves up and down, switches colour on the action key, and must
stay with all four corners inside walls of its own colour. Each tick
(`Game::update`) the game:

1. refreshes the keyboard state;
2. scrolls every wall;
3. evicts the walls that have left the screen on the left;
4. generates new walls on the right with a random walk of y and height, or
   seeds an empty lane with one wall;
5. runs the logic of the current status: MENU, READY, PLAYING or GAME_OVER.

The model covers the following parts of the game:

- the actor, wall, player and input classes;
- the numeric bookkeeping of the GUI (score, best score, countdown, status);
- the whole of `Game::init` and `Game::update`, with the wall passes and the
  containment test `player_inside`.

Every class whose fields the game updates in place is a Dafny `class`:
`Actor`, `Wall`, `Player`, `Input`, `Gui` and `Game`.

- `Wall` and `Player` hold their actor part as `base`, where C++ uses
  inheritance.
- The two key-status arrays of `Input` are arrays.
- `all_walls` is a sequence of wall sequences that the methods reassign.
- Beside the walls, the game keeps a ghost view `geo` of the rectangles they
  cover. The class invariant `Valid` ties the two together, and every
  property of the lanes is stated and proved on `geo`.

The modules are:

- `Utils`: screen size, vectors, rectangles, statuses and C++ float-to-int
  truncation.
- `Actors`, `Walls`, `Players`, `Inputs`, `Guis`: one module per class.
- `Lanes`: pure functions giving each wall pass as a function of a lane's
  rectangles, and the lemmas about them:
  - `Scrolled`, `Evicted`, `Grow` and `Refill` for the passes;
  - `Inside` for the containment test.
- `Games`: the `Game` class, whose methods are proved against those functions.
  - `Game.Update` ends with `geo == LanesAfterTick(old(geo), …)`.
  - `TickKeepsLanes` proves that a tick keeps each lane contiguous and
    placed (y ≥ 0, bottom at most SCREEN_HEIGHT + 3), and filled to the
    right edge.

`rand()` is a parameter `rand: nat -> nat` that gives the result of the n-th
call of the tick. The key states read from the keyboard are a parameter
`held`. The outcome of the font load is a parameter `fontLoads`. Floats are
modelled as reals.

Some behaviours of the code worth noting, all modelled as written:

- There is one generation policy, a random walk of y and height, with no
  per-status policies.
- The player moves by `delta_time * speed` per held key; there is no
  velocity or acceleration.
- The corner scan does not stop once all four bits are set. It only skips
  the corners it has already found.
- An empty lane is seeded with a 4×50 wall at x = SCREEN_WIDTH + 20.
- The height of a generated wall can reach SCREEN_HEIGHT + 3. Its y is
  clamped against its height rather than against SCREEN_HEIGHT − height (see
  `GeneratedYFollowsHeight` and `HeightCanExceedScreen`).

## Model

| member | source | states |
|---|---|---|
| Utils.Trunc | src/game.cc:82 | the conversion of the float score to `int` truncates toward zero: for r ≥ 0 the result n satisfies n ≤ r < n + 1, and for r < 0 it satisfies n − 1 < r ≤ n |
| Actors.Actor.constructor | src/actor.cc:3-5 | the actor stores the given type and speed |
| Actors.Actor.GetType | src/actor.cc:9-11 | returns the stored lane type |
| Actors.Actor.SetType | src/actor.cc:13-15 | the type becomes the argument; speed and position are unchanged |
| Actors.Actor.SetSpeed | src/actor.cc:17-19 | the speed becomes the argument; type and position are unchanged |
| Actors.Actor.GetPos | src/actor.cc:21-23 | returns the stored position |
| Walls.Wall.constructor | src/wall.cc:4-7 | a fresh actor part with the given type, speed and position; the size is stored |
| Walls.Wall.Update | src/wall.cc:11-13 | the wall moves left by delta_time * speed; y, type and speed are unchanged |
| Walls.Wall.GetSize | src/wall.cc:24-26 | returns the stored size |
| Walls.Wall.ContainsPoint | src/wall.cc:28-31 | true exactly when the point lies in the closed rectangle the wall covers |
| Walls.CornersContained | src/wall.cc:28-31 | a wall with a non-negative size contains its own top-left and bottom-right corners |
| Inputs.Input.constructor | src/input.cc:3-8 | two distinct fresh status arrays of K_SIZE keys |
| Inputs.Input.Update | src/input.cc:12-20 | the previous states become the old ones and the keys take the held states; a key is pressed exactly when it is held now and was not held before, and released exactly when the reverse holds |
| Inputs.Input.KeyDown | src/input.cc:22-24 | reference definition of key_down: the key's current state |
| Inputs.Input.KeyPressed | src/input.cc:26-28 | held now and not held in the previous tick; a pressed key is down |
| Inputs.Input.KeyReleased | src/input.cc:30-32 | not held now and held in the previous tick; a released key is not down |
| Inputs.PressedExcludesReleased | src/input.cc:26-32 | no key is both pressed and released in the same tick |
| Inputs.SteadyKeysHaveNoEdges | src/input.cc:12-32 | two updates with the same held states leave no key pressed or released, and each key is down exactly when it is held |
| Players.Player.constructor | src/player.cc:7-11 | a 20×20 player at (50, 200) with the given type and speed |
| Players.Player.GetSize | headers/player.h:14 | returns (width, height) |
| Players.Player.SetPos | headers/player.h:15 | the position becomes the argument; type and speed are unchanged |
| Players.MoveY | src/player.cc:17-22 | reference definition of the vertical move: down first, clamped at SCREEN_HEIGHT − height, then up, clamped at 0 |
| Players.Toggle | src/player.cc:23-25 | reference definition of the lane toggle, 1 − type |
| Players.Player.Update | src/player.cc:15-26 | the new y is MoveY of the old y (down, clamped at the bottom, then up, clamped at the top); x and speed are unchanged; the type is toggled exactly on a fresh action press |
| Players.MoveStaysOnScreen | src/player.cc:17-22 | a player inside [0, SCREEN_HEIGHT − height] stays inside it after a move by a non-negative step |
| Players.MoveOneDirection | src/player.cc:17-22 | holding only down gives min(SCREEN_HEIGHT − height, y + step); holding only up gives max(0, y − step) |
| Players.MoveIdle | src/player.cc:17-22 | with no key held, y does not change |
| Players.ToggleInvolution | src/player.cc:23-25 | the toggle maps {0, 1} to the other type, and two toggles restore the type |
| Guis.Gui.Init | src/gui.cc:20-36 | resets status to MENU and score, best score, timeout and index to 0; the result is false exactly when the font fails to load |
| Guis.Gui.SetScore | src/gui.cc:47-54 | the score becomes the argument; status, index, best score and timeout are unchanged |
| Guis.Gui.SetTimeout | src/gui.cc:56-63 | the timeout becomes the argument; status, index, score and best score are unchanged |
| Guis.Gui.SetStatus | src/gui.cc:65-79 | entering PLAYING zeroes the score, READY sets the timeout to 3, and GAME_OVER sets the best score to max(score, best); the best score never decreases |
| Lanes.ContiguousAt | src/game.cc:38-44 | in a contiguous lane, wall i sits i wall widths right of wall 0 |
| Lanes.ContiguousIncreasing | src/game.cc:218-220 | in a contiguous lane, x strictly increases from front to back |
| Lanes.Scrolled | src/game.cc:72-76 | reference definition of the scroll pass: every rectangle moved left by the same distance, the number of walls kept |
| Lanes.ScrollKeepsShape | src/game.cc:72-76 | scrolling keeps a lane contiguous and placed, and never moves a wall right when the distance is non-negative |
| Lanes.ExpiredCount | src/game.cc:196-206 | the eviction loop stops at the first wall whose right edge is still past x = 0; every wall before it has expired |
| Lanes.Evicted | src/game.cc:192-208 | reference definition of erase_old_walls on one lane: the lane without its leading expired walls |
| Lanes.EvictionShape | src/game.cc:192-208 | eviction removes only a prefix of expired walls and keeps the rest in order; it leaves the lane empty or starting with a live wall; it is idempotent and keeps contiguity and placement |
| Lanes.Jitter | src/game.cc:164-165 | `(rand()%int(walls_width))*(rand()&1 ? -1:1)` lies strictly between −4 and 4 |
| Lanes.NextWall | src/game.cc:164-172 | the generated wall is at the given x with width 4; its height is at least WALLS_MIN_HEIGHT and its y at least 0; when its height fits the screen it ends on screen; after a wall with y ≥ 0 it is placed |
| Lanes.Grow | src/game.cc:163-180 | reference definition of the generation loop: NextWall from the back wall, repeated while x is left of the right edge, four rand() results per wall |
| Lanes.GrowShape | src/game.cc:163-180 | the appended walls are non-empty exactly when the start x is left of the right edge; they start at that x, are contiguous and placed, and the last reaches the right edge |
| Lanes.GrowStep | src/game.cc:163-176 | one loop iteration appends NextWall and continues from it, four rand() calls further on |
| Lanes.GrowSuffix | src/game.cc:163-176 | after k iterations, the rest of the loop is the loop restarted from wall k − 1, k widths right and 4k rand() calls later |
| Lanes.GrowAt | src/game.cc:163-176 | the k-th appended wall is NextWall applied to the wall before it, at k widths right, with rand() calls 4k onwards |
| Lanes.GrowLength | src/game.cc:163 | a k-th wall is appended exactly when x + 4k is left of the right edge |
| Lanes.Refill | src/game.cc:157-189 | reference definition of generate_walls on one lane: the seed wall for an empty lane, otherwise the lane followed by Grow from its back wall |
| Lanes.RefillShape | src/game.cc:157-189 | an empty lane gets exactly the seed wall; a non-empty lane keeps its walls as a prefix and ends at or beyond the right edge; both stay contiguous and placed |
| Lanes.AppendShape | src/game.cc:170-174 | pushing walls that start where the lane ends keeps the lane contiguous and placed |
| Lanes.GeneratedYFollowsHeight | src/game.cc:169 | as written, a generated wall's y is a function of its height alone: h when h ≤ 240, 480 − h when h ≤ 480, and 0 otherwise |
| Lanes.HeightCanExceedScreen | src/game.cc:164-167 | a concrete rand() sequence gives a wall of height SCREEN_HEIGHT + 3 |
| Lanes.ScanLength | src/game.cc:220 | the scan visits exactly the longest prefix of walls whose x is at most the bound |
| Lanes.Inside | src/game.cc:210-230 | reference definition of player_inside: each of the four corners lies in some wall of the scanned prefix (x at most the player's right edge) |
| Lanes.InsideEmptyLane | src/game.cc:218-230 | a player is never inside an empty lane |
| Lanes.InsideScanIsExact | src/game.cc:220 | in a contiguous lane, stopping at the player's right edge loses nothing: the player is inside exactly when each corner lies in some wall of the whole lane |
| Lanes.InsideOneWall | src/game.cc:210-230 | a box that lies within a single wall is inside |
| Games.Transition | src/game.cc:80-119 | reference definition of the status changes one tick may make: stay, MENU→READY, GAME_OVER→READY, READY→PLAYING, PLAYING→GAME_OVER |
| Games.Ease | src/game.cc:100-103 | reference definition of the READY easing: y plus (centre − y) · delta_time · 2 |
| Games.LanesAfterTick | src/game.cc:71-78 | reference definition of the wall passes of one tick: both lanes scrolled and evicted, then refilled, lane 1 with the rand() results after lane 0's |
| Games.EaseStaysOnScreen | src/game.cc:100-103 | with a step of at most half a second, the READY easing keeps the player on screen and between its y and the centre |
| Games.TickKeepsLanes | src/game.cc:71-78 | after a tick every lane is contiguous, placed and non-empty, and its back wall reaches the right edge |
| Games.DropFront | src/game.cc:201-202 | popping the front wall keeps the remaining walls and their rectangles, with distinct actor parts |
| Games.PushBack | src/game.cc:170-172 | pushing a wall with a new actor part extends the lane by its rectangle |
| Games.ScrollLane | src/game.cc:73-75 | every wall of the lane now covers its old rectangle shifted left by delta_time * speed |
| Games.ScanWalls | src/game.cc:216-229 | the mask after the loop has bit k set exactly when corner k lies in one of the walls visited before the right-edge bound |
| Games.MarkCorners | src/game.cc:221-227 | bit k ends up set exactly when it was set before or the wall contains corner k |
| Games.ScanStep | src/game.cc:220-229 | scanning wall i marks exactly the corners that wall contains on top of those found before |
| Games.InsideByMask | src/game.cc:230 | with the player's corners as points, the final mask equals (1<<4)-1 exactly when the player is inside |
| Games.MaskBit | src/game.cc:222-224 | bit k is clear exactly when corner k is unmarked, and or-ing it in marks corner k |
| Games.MaskFull | src/game.cc:230 | the mask equals (1<<4)-1 exactly when all four corners are marked |
| Games.Game.Init | src/game.cc:17-46 | returns no game exactly when the font fails to load; otherwise a valid game in its initial state, with the GUI counters and the text index at 0 |
| Games.Game.constructor | src/game.cc:22-44 | a valid game at speed 500 with the player at (50, 200) in lane 0; lane 0 holds 199 full-height walls at x = 4i and lane 1 is empty |
| Games.Game.SeedFirstLane | src/game.cc:36-44 | the seeding loop adds exactly 199 walls to lane 0, wall i at (4i, 0) with size 4×480, and counts them |
| Games.Game.SeedNext | src/game.cc:38-43 | one seeding pass appends the full-height wall at x = 4·(walls so far) and keeps every wall i at (4i, 0) |
| Games.Game.PushWall | src/game.cc:170-179 | lane t gains a fresh wall covering (pos, size) at its back; the other lane and the walls before it are unchanged; the counters stay in step |
| Games.Game.Append | src/game.cc:170-179 | lane t gains w at its back, its rectangle is appended to geo[t], and w joins the game's objects |
| Games.Game.ScrollWalls | src/game.cc:72-76 | both lanes' rectangles are scrolled by delta_time * speed |
| Games.Game.EraseLane | src/game.cc:195-206 | lane t loses exactly its leading expired walls (Evicted); the other lane is unchanged |
| Games.Game.FrontExpired | src/game.cc:200-201 | the loop test is true exactly when lane t's front wall has expired; when it is false, every leading expired wall is already gone |
| Games.Game.PopNext | src/game.cc:202-206 | removing an expired front wall moves the lane and its rectangles on to the suffix after that wall, and it was one of the leading expired walls |
| Games.Game.PopWall | src/game.cc:201-204 | lane t loses its front wall and the counters are decremented |
| Games.Game.EraseOldWalls | src/game.cc:192-208 | both lanes are Evicted |
| Games.Game.GenerateLane | src/game.cc:158-188 | lane t becomes Refill of itself, using the rand() calls from c onwards, and `calls` counts the calls used |
| Games.Game.GrowLane | src/game.cc:159-181 | the generation loop appends exactly Grow from the back wall, using four rand() calls per wall |
| Games.Game.GrowNext | src/game.cc:164-178 | one generation pass pushes the next wall of Grow, so the lane gains exactly one more wall of the walk; the new y and height are that wall's |
| Games.Game.PushNext | src/game.cc:164-179 | one iteration's jitter and clamps produce NextWall, which is pushed onto lane t |
| Games.Game.GenerateWalls | src/game.cc:156-190 | lane 0 becomes Refill from rand() call 0, and lane 1 Refill from the next unused call |
| Games.Game.PlayerInside | src/game.cc:210-231 | the result is Inside(the player's lane, the player's box) |
| Games.Game.StepStatus | src/game.cc:80-119 | the status machine, with every field stated in every branch: the GUI text index is reset to 0 exactly when the status changes; MENU and GAME_OVER go to READY with a 3-second countdown on a fresh action press and otherwise keep the countdown, and GAME_OVER clears the score; READY forces lane 0, eases the player, runs the countdown and goes to PLAYING (GUI score 0) below 0; PLAYING accrues the score, moves the player, and goes to GAME_OVER exactly when the player is not inside its lane, the best score becoming max(score, best) only then; the player's speed never changes |
| Games.Game.StartCountdown | src/game.cc:92-96 | status READY, timeToStart 3, GUI timeout 3, GUI text index 0; the GUI score and best score are unchanged |
| Games.Game.PlayingStep | src/game.cc:80-89 | score += delta_time and is shown truncated; the player moves at unchanged speed; the status is GAME_OVER exactly when the player ends outside its lane, and then the best score is max(score, best), otherwise unchanged; the GUI text index is reset exactly on GAME_OVER; the countdown display is unchanged |
| Games.Game.AddScore | src/game.cc:81-82 | score += delta_time and the GUI shows its truncation; the best score, countdown display and text index are unchanged |
| Games.Game.EndGame | src/game.cc:86-87 | status GAME_OVER, best score max(score, best) and GUI text index 0; the GUI score and countdown display are unchanged |
| Games.Game.MovePlayer | src/game.cc:84 | the player's move and toggle as in Player::update, the speed unchanged, with the game still valid |
| Games.Game.ReadyStep | src/game.cc:98-111 | the type becomes 0 and y eases toward the centre at unchanged speed; timeToStart drops by delta_time and the GUI shows trunc(timeToStart + 1); the status is PLAYING exactly when timeToStart < 0, and only then are the GUI score and text index zeroed; the best score is unchanged |
| Games.Game.Update | src/game.cc:69-120 | the keys are refreshed from `held`; the lanes become LanesAfterTick of the old lanes; the status changes only along Transition, and each branch states score, countdown, GUI score, best score and player as StepStatus does, in terms of `held`; the GUI text index is reset exactly when the status changes; the player's speed never changes |
| Games.Game.CommonUpdate | src/game.cc:70-78 | the keys take the held states and pressed/down are those of `held` against the previous states; the lanes become LanesAfterTick; the player and the GUI are unchanged |
| Games.Game.MoveWalls | src/game.cc:71-78 | scroll, eviction and generation turn the lanes into LanesAfterTick of the old lanes and leave the player, the GUI and the keys unchanged |

## Left out

- Rendering is not modelled: the window, colours, text strings, the font and `Gui::render`.
- The event loop is not modelled: `Game::run`, `process_events` and the clock that yields `delta_time`. `delta_time` is a parameter.
- `rand()` is the parameter `rand`: the results of this tick's calls in order. The seeding by `srand(time(0))` is left out. Each generated wall uses four calls: y magnitude, y sign, height magnitude, height sign. C++ leaves the order of the two calls within one expression unspecified, and the model fixes this one.
- The key mapping and `sf::Keyboard::isKeyPressed` are not modelled: the held state of each logical key is the parameter `held`.
- The debug print in `Input::update` is left out.
- `Gui::update` is left out because it does nothing. The text strings built by the `Gui` constructor are left out too.
- The source never initialises `status`, `score` or `time_to_start`. The model starts them at MENU, 0 and 0.
- Freeing walls is not modelled: `delete` of an evicted wall, `Game::clear` and the destructors. An evicted wall leaves its lane but stays in `Repr`.
- Floats are reals, so float rounding is not modelled. `int(walls_width)` is 4 and the screen constants are exact.
- The loops over `num_types` lanes are written out for the two lanes the game creates.
- The unused fields of `Player` declared in player.h are left out: velocity and acceleration constants.
- src/main.cc is not part of this model.
- `Player::get_size` and `Player::set_pos` are only declared, in headers/player.h:14-15; no source file defines them. player.h declares a `size` field that player.cc never sets, while player.cc sets `width` and `height`. The model assumes the evident accessors: `get_size` returns (width, height) = (20, 20) and `set_pos` stores the position. `player_inside` and the READY easing rely on that.
