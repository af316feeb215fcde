/**
 * The simulation state of the game: two lanes of walls, the player, the
 * keyboard state, the on-screen bookkeeping and the status machine
 * MENU -> READY -> PLAYING -> GAME_OVER -> READY -> ...
 */
module Games {
  import opened Utils
  import opened Actors
  import opened Walls
  import opened Players
  import opened Inputs
  import opened Guis
  import opened Lanes

  const NumTypes := 2

  /** The status changes one tick may make. */
  predicate Transition(from: Status, to: Status) {
    || to == from
    || (from == Menu && to == Ready)
    || (from == GameOver && to == Ready)
    || (from == Ready && to == Playing)
    || (from == Playing && to == GameOver)
  }

  /** The READY easing of the player's y toward the vertical centre of the screen. */
  function Ease(y: real, height: real, deltaTime: real): real {
    y + Scale((ScreenHeight / 2.0 - height / 2.0) - y, deltaTime)
  }

  /** The easing step: the distance to the centre times delta_time times 2. */
  function Scale(a: real, deltaTime: real): real {
    a * deltaTime * 2.0
  }

  /** With a step of at most half a second the easing stays between y and the centre. */
  lemma EaseStaysOnScreen(y: real, height: real, deltaTime: real)
    requires 0.0 <= height <= ScreenHeight && 0.0 <= y <= ScreenHeight - height
    requires 0.0 <= deltaTime <= 0.5
    ensures 0.0 <= Ease(y, height, deltaTime) <= ScreenHeight - height
    ensures var centre := ScreenHeight / 2.0 - height / 2.0;
      if y <= centre then y <= Ease(y, height, deltaTime) <= centre
      else centre <= Ease(y, height, deltaTime) <= y
  {
    ScaleBetween((ScreenHeight / 2.0 - height / 2.0) - y, deltaTime);
  }

  /** Scaling by twice a factor in [0, 0.5] keeps a value between 0 and itself. */
  lemma ScaleBetween(a: real, k: real)
    requires 0.0 <= k <= 0.5
    ensures a >= 0.0 ==> 0.0 <= Scale(a, k) <= a
    ensures a <= 0.0 ==> a <= Scale(a, k) <= 0.0
  {
    if a >= 0.0 {
      MulNonneg(a, k);
      MulNonneg(a, 0.5 - k);
    } else {
      MulNonneg(-a, k);
      MulNonneg(-a, 0.5 - k);
    }
  }

  lemma MulNonneg(a: real, b: real)
    requires 0.0 <= a && 0.0 <= b
    ensures 0.0 <= a * b
  {
  }

  /** The geometry of both lanes after one tick's scroll, eviction and generation. */
  function LanesAfterTick(g: seq<seq<Rect>>, d: real, rand: nat -> nat): seq<seq<Rect>>
    requires |g| == NumTypes
  {
    var e0 := Evicted(Scrolled(g[0], d));
    var e1 := Evicted(Scrolled(g[1], d));
    [Refill(e0, rand, 0), Refill(e1, rand, RefillDraws(e0, rand, 0))]
  }

  /**
   * A tick keeps every lane contiguous and placed, and leaves it non-empty
   * with its back wall at or beyond the right edge (a seed wall when the lane
   * had emptied).
   */
  lemma TickKeepsLanes(g: seq<seq<Rect>>, d: real, rand: nat -> nat)
    requires |g| == NumTypes
    requires forall t | 0 <= t < NumTypes :: Contiguous(g[t]) && AllPlaced(g[t])
    ensures var r := LanesAfterTick(g, d, rand);
      forall t | 0 <= t < NumTypes ::
        && Contiguous(r[t]) && AllPlaced(r[t]) && r[t] != []
        && Last(r[t]).pos.x + WallsWidth >= ScreenWidth
  {
    var r := LanesAfterTick(g, d, rand);
    forall t | 0 <= t < NumTypes
      ensures Contiguous(r[t]) && AllPlaced(r[t]) && r[t] != []
      ensures Last(r[t]).pos.x + WallsWidth >= ScreenWidth
    {
      var s := Scrolled(g[t], d);
      ScrollKeepsShape(g[t], d);
      EvictionShape(s);
      var c := if t == 0 then 0 else RefillDraws(Evicted(Scrolled(g[0], d)), rand, 0);
      RefillShape(Evicted(s), rand, c);
      assert r[t] == Refill(Evicted(s), rand, c);
    }
  }

  // ------------------------------------------------------ walls and their rectangles

  /** The actor parts of a lane's walls. */
  ghost function BasesOf(ws: seq<Wall>): set<Actor> {
    set i | 0 <= i < |ws| :: ws[i].base
  }

  /** No two walls of a lane share their actor part. */
  ghost predicate Distinct(ws: seq<Wall>) {
    forall i, j {:trigger ws[i].base, ws[j].base} | 0 <= i < j < |ws| :: ws[i].base != ws[j].base
  }

  /** Wall `w` has lane type `t`, moves at `speed` and covers `r`. */
  ghost predicate WallAt(w: Wall, t: int, speed: real, r: Rect)
    reads w.base
  {
    w.base.laneType == t && w.base.speed == speed && w.base.pos == r.pos && w.size == r.size
  }

  /** The walls `ws` cover the rectangles `r`, one by one. */
  ghost predicate WallsAt(ws: seq<Wall>, t: int, speed: real, r: seq<Rect>)
    reads BasesOf(ws)
  {
    |ws| == |r| && forall i {:trigger WallAt(ws[i], t, speed, r[i])} | 0 <= i < |ws| :: WallAt(ws[i], t, speed, r[i])
  }

  /** Popping the front wall keeps the rest of the lane as it was. */
  lemma DropFront(ws: seq<Wall>, t: int, speed: real, r: seq<Rect>)
    requires ws != [] && Distinct(ws) && WallsAt(ws, t, speed, r)
    ensures Distinct(ws[1..]) && WallsAt(ws[1..], t, speed, r[1..])
    ensures BasesOf(ws[1..]) <= BasesOf(ws)
  {
    forall a | a in BasesOf(ws[1..])
      ensures a in BasesOf(ws)
    {
      var i :| 0 <= i < |ws| - 1 && a == ws[1..][i].base;
      assert a == ws[i + 1].base;
    }
  }

  /** Replacing both elements of a pair, one after the other, gives the pair of replacements. */
  lemma BothUpdated<T>(before: seq<T>, mid: seq<T>, after: seq<T>, a: T, b: T)
    requires |before| == 2 && mid == before[0 := a] && after == mid[1 := b]
    ensures after == [a, b]
  {
  }

  /** Dropping the front of the suffix from k leaves the suffix from k + 1. */
  lemma DropNext<T>(s: seq<T>, k: nat)
    requires k < |s|
    ensures s[k..][1..] == s[k + 1..]
  {
  }

  /** Pushing a wall with a new actor part at the back extends the lane by its rectangle. */
  lemma PushBack(ws: seq<Wall>, w: Wall, t: int, speed: real, r: seq<Rect>, rect: Rect)
    requires Distinct(ws) && WallsAt(ws, t, speed, r)
    requires WallAt(w, t, speed, rect) && w.base !in BasesOf(ws)
    ensures Distinct(ws + [w]) && WallsAt(ws + [w], t, speed, r + [rect])
    ensures BasesOf(ws + [w]) == BasesOf(ws) + {w.base}
  {
    var ws' := ws + [w];
    forall i | 0 <= i < |ws|
      ensures ws'[i].base != w.base
    {
      assert ws[i].base in BasesOf(ws);
    }
    forall a | a in BasesOf(ws')
      ensures a in BasesOf(ws) + {w.base}
    {
      var i :| 0 <= i < |ws'| && a == ws'[i].base;
      if i < |ws| {
        assert a == ws[i].base;
      }
    }
    forall a | a in BasesOf(ws) + {w.base}
      ensures a in BasesOf(ws')
    {
      if a == w.base {
        assert a == ws'[|ws|].base;
      } else {
        var i :| 0 <= i < |ws| && a == ws[i].base;
        assert a == ws'[i].base;
      }
    }
  }

  /** Scrolls the walls of one lane, one wall at a time. */
  method ScrollLane(lane: seq<Wall>, deltaTime: real, ghost t: int, ghost speed: real, ghost r: seq<Rect>)
    requires Distinct(lane) && WallsAt(lane, t, speed, r)
    modifies BasesOf(lane)
    ensures WallsAt(lane, t, speed, Scrolled(r, Distance(deltaTime, speed)))
  {
    for i := 0 to |lane|
      invariant forall j | 0 <= j < i :: WallAt(lane[j], t, speed, Shift(r[j], Distance(deltaTime, speed)))
      invariant forall j | i <= j < |lane| :: WallAt(lane[j], t, speed, r[j])
    {
      assert lane[i].base in BasesOf(lane);
      lane[i].Update(deltaTime);
    }
  }

  /**
   * The scan of player_inside: walks the lane from the front while the wall's
   * x is at most the right edge points[1].x, and returns the mask of the
   * corners found inside a scanned wall.
   */
  method ScanWalls(walls: seq<Wall>, points: seq<Vec2>, ghost t: int, ghost speed: real, ghost s: seq<Rect>)
    returns (mask: bv8)
    requires |points| == 4 && WallsAt(walls, t, speed, s)
    ensures mask == MaskOf(Scanned(s, ScanLength(s, points[1].x), points))
  {
    ghost var n := ScanLength(s, points[1].x);
    ghost var seen := Scanned(s, 0, points);
    assert seen == [false, false, false, false];
    mask := 0;
    var i := 0;
    while i < |walls| && walls[i].base.GetPos().x <= points[1].x
      invariant 0 <= i <= n && seen == Scanned(s, i, points) && mask == MaskOf(seen)
      decreases |walls| - i
    {
      assert WallAt(walls[i], t, speed, s[i]);
      mask := MarkCorners(walls[i], points, seen, mask);
      ScanStep(s, i, points);
      seen := Scanned(s, i + 1, points);
      i := i + 1;
    }
    if i < |walls| {
      assert WallAt(walls[i], t, speed, s[i]);
    }
    assert i == n;
  }

  /**
   * The inner loop of player_inside for one wall: sets bit k of the mask for
   * each corner k the wall contains, leaving bits already set as they are;
   * `seen` says which bits the mask has set.
   */
  method MarkCorners(w: Wall, points: seq<Vec2>, ghost seen: seq<bool>, mask: bv8) returns (r: bv8)
    requires |points| == 4 && |seen| == 4 && mask == MaskOf(seen)
    ensures r == MaskOf(Marked(seen, w.Bounds(), points))
  {
    r := mask;
    ghost var cur := seen;
    for k := 0 to 4
      invariant |cur| == 4 && r == MaskOf(cur)
      invariant forall j | 0 <= j < k :: cur[j] == (seen[j] || InRect(w.Bounds(), points[j]))
      invariant forall j | k <= j < 4 :: cur[j] == seen[j]
    {
      MaskBit(cur, k);
      if r & (1 << k) == 0 {
        if w.ContainsPoint(points[k]) {
          r := r | (1 << k);
          cur := cur[k := true];
        }
      }
    }
    assert cur == Marked(seen, w.Bounds(), points);
  }

  class Game {
    /** all_walls: per lane type, the walls from left to right. */
    var lanes: seq<seq<Wall>>
    /** num_active_walls and num_total_walls. */
    var numActive: seq<int>
    var numTotal: int
    var speed: real
    var status: Status
    var score: real
    var timeToStart: real
    const player: Player
    const input: Input
    const gui: Gui

    /** The rectangle each wall covers, lane by lane. */
    ghost var geo: seq<seq<Rect>>
    /** The objects the game owns and may change. */
    ghost var Repr: set<object>

    /** Lane t: counted, owned, apart from the player, contiguous and placed. */
    ghost predicate LaneShape(t: nat)
      requires t < |lanes| && t < |geo| && t < |numActive|
      reads this
    {
      && numActive[t] == |lanes[t]|
      && Distinct(lanes[t]) && BasesOf(lanes[t]) <= Repr && player.base !in BasesOf(lanes[t])
      && Contiguous(geo[t]) && AllPlaced(geo[t])
    }

    ghost predicate Valid()
      reads this, Repr
    {
      && this in Repr && gui in Repr && player.base in Repr
      && input.keyStatus in Repr && input.oldKeyStatus in Repr
      && input.Valid()
      && |lanes| == NumTypes && |geo| == NumTypes && |numActive| == NumTypes
      && numTotal == numActive[0] + numActive[1]
      && LaneShape(0) && LaneShape(1)
      && BasesOf(lanes[0]) !! BasesOf(lanes[1])
      && gui.status == status
      && (player.base.laneType == 0 || player.base.laneType == 1)
      && WallsAt(lanes[0], 0, speed, geo[0]) && WallsAt(lanes[1], 1, speed, geo[1])
    }

    /** The player's box. */
    function PlayerRect(): Rect
      reads player.base
    {
      Rect(player.base.pos, player.GetSize())
    }

    /** What Valid says about lane t, for a t that is not a literal. */
    lemma LaneAt(t: nat)
      requires Valid() && t < NumTypes
      ensures LaneShape(t) && WallsAt(lanes[t], t, speed, geo[t])
    {
      if t == 0 {
      } else {
      }
    }

    /**
     * Game::init. A failed font load makes it return no game; otherwise lane 0
     * is filled with full-height walls from x = 0 and lane 1 starts empty.
     */
    static method Init(fontLoads: bool) returns (game: Game?)
      ensures game == null <==> !fontLoads
      ensures game != null ==> fresh(game.Repr) && game.Valid() && game.Initial()
      ensures game != null ==> game.gui.score == 0 && game.gui.bestScore == 0 && game.gui.timeout == 0
      ensures game != null ==> game.gui.index == 0
    {
      var input := new Input();
      var gui := new Gui();
      var ok := gui.Init(fontLoads);
      if !ok {
        return null;
      }
      game := new Game(input, gui);
    }

    /** The state right after a successful init. */
    ghost predicate Initial()
      reads this, player.base
    {
      && status == Menu && speed == 500.0 && numTotal == 199
      && |geo| == NumTypes && geo[1] == [] && |geo[0]| == 199
      && (forall i | 0 <= i < 199 :: geo[0][i] == Rect(Vec2(WallsWidth * i as real, 0.0), Vec2(WallsWidth, ScreenHeight)))
      && player.base.laneType == 0 && player.base.speed == 500.0
      && PlayerRect() == Rect(Vec2(50.0, 200.0), Vec2(20.0, 20.0))
    }

    /** The part of Game::init after the font has loaded. */
    constructor (input: Input, gui: Gui)
      requires input.Valid() && gui.status == Menu
      ensures this.input == input && this.gui == gui
      ensures Valid() && Initial()
      ensures fresh(Repr - {input.keyStatus, input.oldKeyStatus, gui})
    {
      this.input := input;
      this.gui := gui;
      speed := 500.0;
      numTotal := 0;
      numActive := [0, 0];
      player := new Player(0, 500.0);
      status := Menu;
      score := 0.0;
      timeToStart := 0.0;
      lanes := [[], []];
      geo := [[], []];
      new;
      player.base.SetSpeed(500.0);
      Repr := {this, gui, player.base, input.keyStatus, input.oldKeyStatus};
      SeedFirstLane();
    }

    /** The seeding loop of Game::init: full-height walls from x = 0 while they fit on screen. */
    method SeedFirstLane()
      requires Valid() && lanes == [[], []] && geo == [[], []] && speed == 500.0
      modifies this`lanes, this`geo, this`Repr, this`numTotal, this`numActive
      ensures Valid() && old(Repr) <= Repr && fresh(Repr - old(Repr))
      ensures geo[1] == [] && |geo[0]| == 199 && numTotal == 199
      ensures forall i | 0 <= i < 199 :: geo[0][i] == Rect(Vec2(WallsWidth * i as real, 0.0), Vec2(WallsWidth, ScreenHeight))
    {
      var posX := 0.0;
      while posX + WallsWidth < ScreenWidth
        invariant Valid() && old(Repr) <= Repr && fresh(Repr - old(Repr))
        invariant geo[1] == []
        invariant posX == WallsWidth * |geo[0]| as real && posX < ScreenWidth
        invariant forall i | 0 <= i < |geo[0]| ::
                    geo[0][i] == Rect(Vec2(WallsWidth * i as real, 0.0), Vec2(WallsWidth, ScreenHeight))
        decreases Remaining(posX)
      {
        SeedNext(posX);
        posX := posX + WallsWidth;
      }
    }

    /** One pass of the constructor's loop: a full-height wall at posX joins lane 0. */
    method SeedNext(posX: real)
      requires Valid() && geo[1] == [] && posX == WallsWidth * |geo[0]| as real && posX + WallsWidth < ScreenWidth
      requires forall i | 0 <= i < |geo[0]| ::
                 geo[0][i] == Rect(Vec2(WallsWidth * i as real, 0.0), Vec2(WallsWidth, ScreenHeight))
      modifies this`lanes, this`geo, this`Repr, this`numTotal, this`numActive
      ensures Valid() && old(Repr) <= Repr && fresh(Repr - old(Repr))
      ensures geo[1] == [] && posX + WallsWidth == WallsWidth * |geo[0]| as real
      ensures forall i | 0 <= i < |geo[0]| ::
                geo[0][i] == Rect(Vec2(WallsWidth * i as real, 0.0), Vec2(WallsWidth, ScreenHeight))
    {
      PushWall(0, Vec2(posX, 0.0), Vec2(WallsWidth, ScreenHeight));
    }

    /** push_back(new Wall(type, speed, pos, size)) on lane t, with both counters incremented. */
    method PushWall(t: nat, pos: Vec2, size: Vec2)
      requires Valid() && t < NumTypes
      requires Placed(Rect(pos, size))
      requires geo[t] != [] ==> pos.x == Last(geo[t]).pos.x + WallsWidth
      modifies this`lanes, this`geo, this`Repr, this`numTotal, this`numActive
      ensures Valid() && old(Repr) <= Repr && fresh(Repr - old(Repr))
      ensures geo == old(geo)[t := old(geo[t]) + [Rect(pos, size)]]
      ensures lanes[1 - t] == old(lanes[1 - t]) && |lanes[t]| == old(|lanes[t]|) + 1
      ensures lanes[t][..old(|lanes[t]|)] == old(lanes[t])
    {
      var w := new Wall(t, speed, pos, size);
      Append(t, w);
    }

    /** Links the fresh wall w at the back of lane t and counts it. */
    method Append(t: nat, w: Wall)
      requires Valid() && t < NumTypes && w.base !in Repr
      requires WallAt(w, t, speed, w.Bounds()) && Placed(w.Bounds())
      requires geo[t] != [] ==> w.Bounds().pos.x == Last(geo[t]).pos.x + WallsWidth
      modifies this`lanes, this`geo, this`Repr, this`numTotal, this`numActive
      ensures Valid() && Repr == old(Repr) + {w.base}
      ensures geo == old(geo)[t := old(geo[t]) + [w.Bounds()]]
      ensures lanes[1 - t] == old(lanes[1 - t]) && |lanes[t]| == old(|lanes[t]|) + 1
      ensures lanes[t][..old(|lanes[t]|)] == old(lanes[t])
    {
      LaneAt(t);
      ghost var r := w.Bounds();
      lanes := lanes[t := lanes[t] + [w]];
      geo := geo[t := geo[t] + [r]];
      Repr := Repr + {w.base};
      numTotal := numTotal + 1;
      numActive := numActive[t := numActive[t] + 1];
      assert Distinct(lanes[t]) && WallsAt(lanes[t], t, speed, geo[t])
          && BasesOf(lanes[t]) == BasesOf(old(lanes[t])) + {w.base} by {
        PushBack(old(lanes[t]), w, t, speed, old(geo[t]), r);
      }
      assert Contiguous(geo[t]) && AllPlaced(geo[t]) by {
        AppendShape(old(geo[t]), [r]);
      }
      assert lanes[t][..old(|lanes[t]|)] == old(lanes[t]);
      assert LaneShape(t) && LaneShape(1 - t);
      assert BasesOf(lanes[0]) !! BasesOf(lanes[1]);
      assert WallsAt(lanes[1 - t], 1 - t, speed, geo[1 - t]);
    }

    /** The scroll pass of Game::update: every wall of every lane moves left by delta_time * speed. */
    method ScrollWalls(deltaTime: real)
      requires Valid()
      modifies this`geo, BasesOf(lanes[0]), BasesOf(lanes[1])
      ensures Valid()
      ensures geo == [Scrolled(old(geo[0]), Distance(deltaTime, speed)), Scrolled(old(geo[1]), Distance(deltaTime, speed))]
    {
      ghost var d, g := Distance(deltaTime, speed), geo;
      // the source loops over the NumTypes = 2 lanes; the two passes are written out
      ScrollLane(lanes[0], deltaTime, 0, speed, g[0]);
      ScrollLane(lanes[1], deltaTime, 1, speed, g[1]);
      geo := [Scrolled(g[0], d), Scrolled(g[1], d)];
      ScrollKeepsShape(g[0], d);
      ScrollKeepsShape(g[1], d);
    }

    /** erase_old_walls on one lane: pops front walls while their right edge is at or past x = 0. */
    method EraseLane(t: nat)
      requires Valid() && t < NumTypes
      modifies this`lanes, this`geo, this`numActive, this`numTotal
      ensures Valid()
      ensures geo == old(geo)[t := Evicted(old(geo[t]))]
      ensures lanes == old(lanes)[t := old(lanes[t])[ExpiredCount(old(geo[t]))..]]
    {
      var moveNext := true;
      ghost var k := 0;
      ghost var s := geo[t];
      while lanes[t] != [] && moveNext
        invariant Valid()
        invariant 0 <= k <= ExpiredCount(s)
        invariant geo == old(geo)[t := s[k..]] && lanes == old(lanes)[t := old(lanes[t])[k..]]
        invariant !moveNext ==> k == ExpiredCount(s)
        decreases |lanes[t]| + (if moveNext then 1 else 0)
      {
        moveNext := FrontExpired(t, s, k);
        if moveNext {
          PopNext(t, old(geo), old(lanes), s, k);
          k := k + 1;
        }
      }
    }

    /** The test of erase_old_walls' loop: has lane t's front wall left the screen? */
    method FrontExpired(t: nat, ghost s: seq<Rect>, ghost k: nat) returns (expired: bool)
      requires Valid() && t < NumTypes && lanes[t] != []
      requires k <= ExpiredCount(s) && geo[t] == s[k..]
      ensures expired == Expired(geo[t][0])
      ensures !expired ==> k == ExpiredCount(s)
    {
      LaneAt(t);
      assert WallAt(lanes[t][0], t, speed, geo[t][0]);
      var lastX := lanes[t][0].base.GetPos().x + WallsWidth;
      expired := lastX <= 0.0;
      assert geo[t][0] == s[k];
    }

    /** One pass of erase_old_walls' loop: the expired wall k of lane t goes. */
    method PopNext(t: nat, ghost os: seq<seq<Rect>>, ghost ol: seq<seq<Wall>>, ghost s: seq<Rect>, ghost k: nat)
      requires Valid() && t < NumTypes && t < |os| && t < |ol| && lanes[t] != []
      requires k <= ExpiredCount(s) && k <= |ol[t]|
      requires geo == os[t := s[k..]] && lanes == ol[t := ol[t][k..]]
      requires Expired(geo[t][0])
      modifies this`lanes, this`geo, this`numActive, this`numTotal
      ensures Valid() && k < ExpiredCount(s) && k < |ol[t]|
      ensures geo == os[t := s[k + 1..]] && lanes == ol[t := ol[t][k + 1..]]
    {
      assert s[k..][0] == s[k];
      PopWall(t);
      DropNext(ol[t], k);
      DropNext(s, k);
    }

    /** delete walls.front(); walls.pop_front() on lane t, with both counters decremented. */
    method PopWall(t: nat)
      requires Valid() && t < NumTypes && lanes[t] != []
      modifies this`lanes, this`geo, this`numActive, this`numTotal
      ensures Valid()
      ensures geo == old(geo)[t := old(geo[t])[1..]]
      ensures lanes == old(lanes)[t := old(lanes[t])[1..]]
    {
      LaneAt(t);
      lanes := lanes[t := lanes[t][1..]];
      geo := geo[t := geo[t][1..]];
      numTotal := numTotal - 1;
      numActive := numActive[t := numActive[t] - 1];
      assert Distinct(lanes[t]) && WallsAt(lanes[t], t, speed, geo[t])
          && BasesOf(lanes[t]) <= BasesOf(old(lanes[t])) by {
        DropFront(old(lanes[t]), t, speed, old(geo[t]));
      }
      assert LaneShape(t) && LaneShape(1 - t);
      assert BasesOf(lanes[0]) !! BasesOf(lanes[1]);
      assert WallsAt(lanes[1 - t], 1 - t, speed, geo[1 - t]);
    }

    /** Game::erase_old_walls, lane by lane. */
    method EraseOldWalls()
      requires Valid()
      modifies this`lanes, this`geo, this`numActive, this`numTotal
      ensures Valid()
      ensures geo == [Evicted(old(geo[0])), Evicted(old(geo[1]))]
      ensures lanes == [old(lanes[0])[ExpiredCount(old(geo[0]))..], old(lanes[1])[ExpiredCount(old(geo[1]))..]]
    {
      // the source loops over the NumTypes = 2 lanes; the two passes are written out
      EraseLane(0);
      EraseLane(1);
    }

    /**
     * generate_walls on one lane: a non-empty lane gets random-walk walls until
     * its back wall reaches the right edge, an empty one the seed wall; `c` is
     * the number of rand() calls made before, and `calls` the number after.
     */
    method GenerateLane(t: nat, rand: nat -> nat, c: nat) returns (calls: nat)
      requires Valid() && t < NumTypes
      modifies this`lanes, this`geo, this`numActive, this`numTotal, this`Repr
      ensures Valid() && old(Repr) <= Repr && fresh(Repr - old(Repr))
      ensures geo == old(geo)[t := Refill(old(geo[t]), rand, c)]
      ensures calls == c + RefillDraws(old(geo[t]), rand, c)
      ensures lanes[1 - t] == old(lanes[1 - t]) && old(lanes[t]) <= lanes[t]
    {
      LaneAt(t);
      calls := c;
      if lanes[t] != [] {
        var back := lanes[t][|lanes[t]| - 1];
        assert WallAt(back, t, speed, Last(geo[t]));
        var lastX := back.base.GetPos().x + WallsWidth;
        var lastY := back.base.GetPos().y;
        var lastHeight := back.GetSize().y;
        calls := GrowLane(t, lastX, lastY, lastHeight, rand, c);
      } else {
        PushWall(t, Seed.pos, Seed.size);
        assert geo[t] == [Seed];
      }
    }

    /** The generation loop on a non-empty lane t whose back wall ends at lastX. */
    method GrowLane(t: nat, lastX: real, lastY: real, lastHeight: real, rand: nat -> nat, c: nat) returns (calls: nat)
      requires Valid() && t < NumTypes && geo[t] != [] && lastY >= 0.0
      requires Last(geo[t]) == Rect(Vec2(lastX - WallsWidth, lastY), Vec2(WallsWidth, lastHeight))
      modifies this`lanes, this`geo, this`numActive, this`numTotal, this`Repr
      ensures Valid() && old(Repr) <= Repr && fresh(Repr - old(Repr))
      ensures geo == old(geo)[t := old(geo[t]) + Grow(lastX, lastY, lastHeight, rand, c)]
      ensures calls == c + GrowDraws(lastX, lastY, lastHeight, rand, c)
      ensures lanes[1 - t] == old(lanes[1 - t]) && old(lanes[t]) <= lanes[t]
    {
      ghost var g := Grow(lastX, lastY, lastHeight, rand, c);
      ghost var k := 0;
      calls := c;
      var x, y, h := lastX, lastY, lastHeight;
      assert old(geo[t]) + g[..0] == geo[t];
      while x < ScreenWidth
        invariant Valid() && old(Repr) <= Repr && fresh(Repr - old(Repr))
        invariant lanes[1 - t] == old(lanes[1 - t]) && old(lanes[t]) <= lanes[t]
        invariant k <= |g| && x == XAfter(lastX, k) && calls == c + 4 * k
        invariant geo == old(geo)[t := old(geo[t]) + g[..k]] && y >= 0.0
        invariant Last(geo[t]).pos.x + WallsWidth == x
        invariant if k == 0 then y == lastY && h == lastHeight else y == g[k - 1].pos.y && h == g[k - 1].size.y
        decreases |g| - k
      {
        var newY, newHeight := GrowNext(t, lastX, lastY, lastHeight, rand, c, old(geo), k, x, y, h, calls);
        calls := calls + 4;
        x, y, h := x + WallsWidth, newY, newHeight;
        k := k + 1;
      }
      assert k == |g| by { GrowLength(lastX, lastY, lastHeight, rand, c, k); }
      assert g[..k] == g;
    }

    /** One pass of GrowLane's loop: the k-th wall of the walk from lastX goes onto lane t. */
    method GrowNext(t: nat, lastX: real, lastY: real, lastHeight: real, rand: nat -> nat, c: nat,
                    ghost os: seq<seq<Rect>>, ghost k: nat, x: real, y: real, h: real, calls: nat)
      returns (newY: real, newHeight: real)
      requires Valid() && t < NumTypes && t < |os| && y >= 0.0 && x < ScreenWidth
      requires k <= |Grow(lastX, lastY, lastHeight, rand, c)| && x == XAfter(lastX, k) && calls == c + 4 * k
      requires geo == os[t := os[t] + Grow(lastX, lastY, lastHeight, rand, c)[..k]] && geo[t] != []
      requires Last(geo[t]).pos.x + WallsWidth == x
      requires k == 0 ==> y == lastY && h == lastHeight
      requires k > 0 ==> && y == Grow(lastX, lastY, lastHeight, rand, c)[k - 1].pos.y
                         && h == Grow(lastX, lastY, lastHeight, rand, c)[k - 1].size.y
      modifies this`lanes, this`geo, this`numActive, this`numTotal, this`Repr
      ensures Valid() && old(Repr) <= Repr && fresh(Repr - old(Repr))
      ensures k < |Grow(lastX, lastY, lastHeight, rand, c)| && x + WallsWidth == XAfter(lastX, k + 1)
      ensures geo == os[t := os[t] + Grow(lastX, lastY, lastHeight, rand, c)[..k + 1]]
      ensures newY == Grow(lastX, lastY, lastHeight, rand, c)[k].pos.y && newY >= 0.0
      ensures newHeight == Grow(lastX, lastY, lastHeight, rand, c)[k].size.y
      ensures Last(geo[t]).pos.x == x
      ensures lanes[1 - t] == old(lanes[1 - t]) && old(lanes[t]) <= lanes[t]
    {
      ghost var g := Grow(lastX, lastY, lastHeight, rand, c);
      GrowLength(lastX, lastY, lastHeight, rand, c, k);
      GrowAt(lastX, lastY, lastHeight, rand, c, k, x, y, h, calls);
      TakeNext(os[t], g, k);
      XAfterNext(lastX, k);
      newY, newHeight := PushNext(t, x, y, h, rand, calls);
    }

    /**
     * One step of the random walk: the wall after the back wall at lastX, its
     * y and height moved by two jitters and clamped, pushed onto lane t.
     */
    method PushNext(t: nat, lastX: real, lastY: real, lastHeight: real, rand: nat -> nat, calls: nat)
      returns (newY: real, newHeight: real)
      requires Valid() && t < NumTypes && geo[t] != [] && lastY >= 0.0
      requires lastX == Last(geo[t]).pos.x + WallsWidth
      modifies this`lanes, this`geo, this`numActive, this`numTotal, this`Repr
      ensures Valid() && old(Repr) <= Repr && fresh(Repr - old(Repr))
      ensures Rect(Vec2(lastX, newY), Vec2(WallsWidth, newHeight)) == NextWall(lastX, lastY, lastHeight, rand, calls)
      ensures geo == old(geo)[t := old(geo[t]) + [NextWall(lastX, lastY, lastHeight, rand, calls)]]
      ensures lanes[1 - t] == old(lanes[1 - t]) && old(lanes[t]) <= lanes[t]
    {
      newY := lastY + Jitter(rand(calls), rand(calls + 1)) as real;
      newHeight := lastHeight + Jitter(rand(calls + 2), rand(calls + 3)) as real;
      // limit the new height, then the new y (the latter bounded by the height, as written)
      newHeight := Max(WallsMinHeight, Min(ScreenHeight - newY, newHeight));
      newY := Max(0.0, Min(ScreenHeight - newHeight, newHeight));
      assert Rect(Vec2(lastX, newY), Vec2(WallsWidth, newHeight)) == NextWall(lastX, lastY, lastHeight, rand, calls);
      PushWall(t, Vec2(lastX, newY), Vec2(WallsWidth, newHeight));
      assert lanes[t][..old(|lanes[t]|)] == old(lanes[t]);
    }

    /**
     * Game::generate_walls, lane by lane; rand(0), rand(1), ... are the
     * results of the successive rand() calls.
     */
    method GenerateWalls(rand: nat -> nat)
      requires Valid()
      modifies this`lanes, this`geo, this`numActive, this`numTotal, this`Repr
      ensures Valid() && old(Repr) <= Repr && fresh(Repr - old(Repr))
      ensures geo == [Refill(old(geo[0]), rand, 0), Refill(old(geo[1]), rand, RefillDraws(old(geo[0]), rand, 0))]
      ensures old(lanes[0]) <= lanes[0] && old(lanes[1]) <= lanes[1]
    {
      // the source loops over the NumTypes = 2 lanes; the two passes are written out
      ghost var g0, g1 := geo[0], geo[1];
      var calls := GenerateLane(0, rand, 0);
      ghost var mid, n := geo, calls;
      assert mid == old(geo)[0 := Refill(g0, rand, 0)] && n == RefillDraws(g0, rand, 0);
      calls := GenerateLane(1, rand, calls);
      assert geo == mid[1 := Refill(mid[1], rand, n)] && mid[1] == g1;
      BothUpdated(old(geo), mid, geo, Refill(g0, rand, 0), Refill(g1, rand, n));
    }

    /**
     * Game::player_inside: scans the player's lane from the front while the
     * wall's x is at most the player's right edge, marking in a 4-bit mask
     * each corner found inside a wall.
     */
    method PlayerInside() returns (inside: bool)
      requires Valid()
      ensures inside == Inside(geo[player.base.laneType], PlayerRect())
    {
      var pos := player.base.GetPos();
      var size := player.GetSize();
      var points := [pos, Vec2(pos.x + size.x, pos.y + size.y), Vec2(pos.x + size.x, pos.y), Vec2(pos.x, pos.y + size.y)];
      var t := player.base.GetType();
      LaneAt(t);
      var insidePoints := ScanWalls(lanes[t], points, t, speed, geo[t]);
      InsideByMask(geo[t], Rect(pos, size), points);
      inside := insidePoints == AllCorners;
    }

    /** The status-dependent part of Game::update, run once the walls have moved. */
    method StepStatus(deltaTime: real)
      requires Valid()
      modifies this`status, this`score, this`timeToStart, gui, player.base
      ensures Valid() && Transition(old(status), status)
      ensures gui.bestScore >= old(gui.bestScore) && player.base.speed == old(player.base.speed)
      ensures gui.index == if status != old(status) then 0 else old(gui.index)
      // MENU: a fresh action press arms the 3-second countdown; nothing else changes.
      ensures old(status) == Menu ==>
        && status == (if input.KeyPressed(PlayerAction) then Ready else Menu)
        && timeToStart == (if status == Ready then 3.0 else old(timeToStart))
        && gui.timeout == (if status == Ready then 3 else old(gui.timeout))
        && score == old(score) && gui.score == old(gui.score) && gui.bestScore == old(gui.bestScore)
        && player.base.laneType == old(player.base.laneType) && player.base.pos == old(player.base.pos)
      // READY: the player is forced into lane 0 and eased toward the centre; the countdown runs.
      ensures old(status) == Ready ==>
        && player.base.laneType == 0
        && player.base.pos == Vec2(old(player.base.pos.x), Ease(old(player.base.pos.y), player.height, deltaTime))
        && timeToStart == old(timeToStart) - deltaTime
        && status == (if timeToStart < 0.0 then Playing else Ready)
        && gui.timeout == Trunc(timeToStart + 1.0)
        && gui.score == (if status == Playing then 0 else old(gui.score))
        && score == old(score) && gui.bestScore == old(gui.bestScore)
      // PLAYING: the score accrues, the player moves, and the game ends once the player is outside its lane.
      ensures old(status) == Playing ==>
        && score == old(score) + deltaTime
        && gui.score == Trunc(score)
        && player.base.pos == Vec2(old(player.base.pos.x),
                                   MoveY(old(player.base.pos.y), Distance(deltaTime, old(player.base.speed)),
                                         player.height, input.KeyDown(PlayerDown), input.KeyDown(PlayerUp)))
        && player.base.laneType == (if input.KeyPressed(PlayerAction) then Toggle(old(player.base.laneType))
                                    else old(player.base.laneType))
        && (status == GameOver <==> !Inside(geo[player.base.laneType], PlayerRect()))
        && gui.bestScore == (if status == GameOver then MaxInt(gui.score, old(gui.bestScore)) else old(gui.bestScore))
        && timeToStart == old(timeToStart) && gui.timeout == old(gui.timeout)
      // GAME_OVER: the score is cleared; a fresh action press starts a new countdown.
      ensures old(status) == GameOver ==>
        && score == 0.0
        && status == (if input.KeyPressed(PlayerAction) then Ready else GameOver)
        && timeToStart == (if status == Ready then 3.0 else old(timeToStart))
        && gui.timeout == (if status == Ready then 3 else old(gui.timeout))
        && gui.score == old(gui.score) && gui.bestScore == old(gui.bestScore)
        && player.base.laneType == old(player.base.laneType) && player.base.pos == old(player.base.pos)
    {
      if status == Playing {
        PlayingStep(deltaTime);
      } else if status == Menu {
        if input.KeyPressed(PlayerAction) {
          StartCountdown();
        }
      } else if status == Ready {
        ReadyStep(deltaTime);
      } else {
        score := 0.0;
        if input.KeyPressed(PlayerAction) {
          StartCountdown();
        }
      }
    }

    /** MENU or GAME_OVER on a fresh action press: enter READY with a 3-second countdown. */
    method StartCountdown()
      requires Valid()
      modifies this`status, this`timeToStart, gui
      ensures Valid() && status == Ready && timeToStart == 3.0
      ensures gui.timeout == 3 && gui.score == old(gui.score) && gui.bestScore == old(gui.bestScore)
      ensures gui.index == 0
    {
      status := Ready;
      gui.SetStatus(status);
      timeToStart := 3.0;
    }

    /** The PLAYING branch of Game::update. */
    method PlayingStep(deltaTime: real)
      requires Valid() && status == Playing
      modifies this`status, this`score, gui, player.base
      ensures Valid() && (status == Playing || status == GameOver)
      ensures score == old(score) + deltaTime && gui.score == Trunc(score)
      ensures player.base.pos == Vec2(old(player.base.pos.x),
                                      MoveY(old(player.base.pos.y), Distance(deltaTime, old(player.base.speed)),
                                            player.height, input.KeyDown(PlayerDown), input.KeyDown(PlayerUp)))
      ensures player.base.laneType == if input.KeyPressed(PlayerAction) then Toggle(old(player.base.laneType))
                                      else old(player.base.laneType)
      ensures status == GameOver <==> !Inside(geo[player.base.laneType], PlayerRect())
      ensures gui.bestScore == if status == GameOver then MaxInt(gui.score, old(gui.bestScore)) else old(gui.bestScore)
      ensures gui.timeout == old(gui.timeout) && player.base.speed == old(player.base.speed)
      ensures gui.index == if status == GameOver then 0 else old(gui.index)
    {
      AddScore(deltaTime);
      MovePlayer(deltaTime);
      var inside := PlayerInside();
      if !inside {
        EndGame();
      }
    }

    /** PLAYING: the score grows by the elapsed time and the display shows its integer part. */
    method AddScore(deltaTime: real)
      requires Valid() && status == Playing
      modifies this`score, gui
      ensures Valid() && status == Playing
      ensures score == old(score) + deltaTime && gui.score == Trunc(score)
      ensures gui.bestScore == old(gui.bestScore) && gui.timeout == old(gui.timeout) && gui.index == old(gui.index)
    {
      score := score + deltaTime;
      gui.SetScore(Trunc(score));
    }

    /** PLAYING, player outside its lane: GAME_OVER, which records the best score. */
    method EndGame()
      requires Valid() && status == Playing
      modifies this`status, gui
      ensures Valid() && status == GameOver
      ensures gui.score == old(gui.score) && gui.bestScore == MaxInt(gui.score, old(gui.bestScore))
      ensures gui.timeout == old(gui.timeout) && gui.index == 0
    {
      status := GameOver;
      gui.SetStatus(status);
    }

    /** Player::update while PLAYING; the walls and the rest of the state stay put. */
    method MovePlayer(deltaTime: real)
      requires Valid()
      modifies player.base
      ensures Valid()
      ensures player.base.pos == Vec2(old(player.base.pos.x),
                                      MoveY(old(player.base.pos.y), Distance(deltaTime, old(player.base.speed)),
                                            player.height, input.KeyDown(PlayerDown), input.KeyDown(PlayerUp)))
      ensures player.base.laneType == if input.KeyPressed(PlayerAction) then Toggle(old(player.base.laneType))
                                      else old(player.base.laneType)
      ensures player.base.speed == old(player.base.speed)
    {
      player.Update(deltaTime, input);
    }

    /** The READY branch of Game::update. */
    method ReadyStep(deltaTime: real)
      requires Valid() && status == Ready
      modifies this`status, this`timeToStart, gui, player.base
      ensures Valid()
      ensures player.base.laneType == 0
      ensures player.base.pos == Vec2(old(player.base.pos.x), Ease(old(player.base.pos.y), player.height, deltaTime))
      ensures timeToStart == old(timeToStart) - deltaTime
      ensures status == if timeToStart < 0.0 then Playing else Ready
      ensures gui.timeout == Trunc(timeToStart + 1.0)
      ensures gui.score == (if status == Playing then 0 else old(gui.score)) && gui.bestScore == old(gui.bestScore)
      ensures gui.index == if status == Playing then 0 else old(gui.index)
      ensures player.base.speed == old(player.base.speed)
    {
      if player.base.GetType() != 0 {
        player.base.SetType(0);
      }
      var pos := player.base.GetPos();
      var size := player.GetSize();
      player.SetPos(Vec2(pos.x, Ease(pos.y, size.y, deltaTime)));
      timeToStart := timeToStart - deltaTime;
      gui.SetTimeout(Trunc(timeToStart + 1.0));
      if timeToStart < 0.0 {
        status := Playing;
        gui.SetStatus(status);
      }
    }

    /**
     * Game::update: refresh the keys, scroll, evict and generate walls, then
     * run the current status's logic. `held` is the physical state of each
     * key and `rand` the results of this tick's rand() calls.
     */
    method Update(deltaTime: real, held: seq<bool>, rand: nat -> nat)
      requires Valid() && |held| == KSize
      modifies Repr
      ensures Valid() && old(Repr) <= Repr && fresh(Repr - old(Repr))
      ensures geo == LanesAfterTick(old(geo), Distance(deltaTime, old(speed)), rand)
      ensures speed == old(speed)
      ensures Transition(old(status), status)
      ensures input.keyStatus[..] == held && input.oldKeyStatus[..] == old(input.keyStatus[..])
      ensures gui.bestScore >= old(gui.bestScore) && player.base.speed == old(player.base.speed)
      ensures gui.index == if status != old(status) then 0 else old(gui.index)
      ensures var pressed := held[PlayerAction] && !old(input.keyStatus[PlayerAction]);
        && (old(status) == Menu ==>
              && status == (if pressed then Ready else Menu)
              && timeToStart == (if status == Ready then 3.0 else old(timeToStart))
              && gui.timeout == (if status == Ready then 3 else old(gui.timeout))
              && score == old(score) && gui.score == old(gui.score) && gui.bestScore == old(gui.bestScore)
              && PlayerRect() == old(PlayerRect()) && player.base.laneType == old(player.base.laneType))
        && (old(status) == Playing ==>
              && score == old(score) + deltaTime
              && gui.score == Trunc(score)
              && player.base.pos == Vec2(old(player.base.pos.x),
                                         MoveY(old(player.base.pos.y), Distance(deltaTime, old(player.base.speed)),
                                               player.height, held[PlayerDown], held[PlayerUp]))
              && player.base.laneType == (if pressed then Toggle(old(player.base.laneType)) else old(player.base.laneType))
              && (status == GameOver <==> !Inside(geo[player.base.laneType], PlayerRect()))
              && gui.bestScore == (if status == GameOver then MaxInt(gui.score, old(gui.bestScore)) else old(gui.bestScore))
              && timeToStart == old(timeToStart) && gui.timeout == old(gui.timeout))
        && (old(status) == GameOver ==>
              && score == 0.0
              && status == (if pressed then Ready else GameOver)
              && timeToStart == (if status == Ready then 3.0 else old(timeToStart))
              && gui.timeout == (if status == Ready then 3 else old(gui.timeout))
              && gui.score == old(gui.score) && gui.bestScore == old(gui.bestScore)
              && PlayerRect() == old(PlayerRect()) && player.base.laneType == old(player.base.laneType))
      ensures old(status) == Ready ==>
        && player.base.laneType == 0
        && player.base.pos == Vec2(old(player.base.pos.x), Ease(old(player.base.pos.y), player.height, deltaTime))
        && timeToStart == old(timeToStart) - deltaTime
        && status == (if timeToStart < 0.0 then Playing else Ready)
        && gui.timeout == Trunc(timeToStart + 1.0)
        && gui.score == (if status == Playing then 0 else old(gui.score))
        && score == old(score) && gui.bestScore == old(gui.bestScore)
    {
      CommonUpdate(deltaTime, held, rand);
      StepStatus(deltaTime);
    }

    /** The part of Game::update run in every status: refresh the keys, then move the walls. */
    method CommonUpdate(deltaTime: real, held: seq<bool>, rand: nat -> nat)
      requires Valid() && |held| == KSize
      modifies this`lanes, this`geo, this`numActive, this`numTotal, this`Repr, BasesOf(lanes[0]), BasesOf(lanes[1])
      modifies input.keyStatus, input.oldKeyStatus
      ensures Valid() && old(Repr) <= Repr && fresh(Repr - old(Repr))
      ensures geo == LanesAfterTick(old(geo), Distance(deltaTime, speed), rand)
      ensures input.keyStatus[..] == held && input.oldKeyStatus[..] == old(input.keyStatus[..])
      ensures input.KeyPressed(PlayerAction) == (held[PlayerAction] && !old(input.keyStatus[PlayerAction]))
      ensures input.KeyDown(PlayerDown) == held[PlayerDown] && input.KeyDown(PlayerUp) == held[PlayerUp]
      ensures unchanged(player.base, gui)
    {
      input.Update(held);
      MoveWalls(deltaTime, rand);
    }

    /** The wall passes of Game::update: scroll, evict, generate. */
    method MoveWalls(deltaTime: real, rand: nat -> nat)
      requires Valid()
      modifies this`lanes, this`geo, this`numActive, this`numTotal, this`Repr, BasesOf(lanes[0]), BasesOf(lanes[1])
      ensures Valid() && old(Repr) <= Repr && fresh(Repr - old(Repr))
      ensures geo == LanesAfterTick(old(geo), Distance(deltaTime, speed), rand)
      ensures unchanged(player.base, gui, input.keyStatus, input.oldKeyStatus)
    {
      ScrollWalls(deltaTime);
      EraseOldWalls();
      GenerateWalls(rand);
    }
  }

  // ------------------------------------------------------- the corner mask

  /** The mask with all four corner bits set, (1 << 4) - 1. */
  const AllCorners: bv8 := 15

  /** The 4-bit mask whose bit k is set exactly when b[k] holds. */
  function MaskOf(b: seq<bool>): bv8
    requires |b| == 4
  {
    (if b[0] then 1 else 0) | (if b[1] then 2 else 0) | (if b[2] then 4 else 0) | (if b[3] then 8 else 0)
  }

  /** Corner k is marked after a wall when it was before or the wall contains it. */
  ghost function Marked(seen: seq<bool>, wall: Rect, points: seq<Vec2>): (r: seq<bool>)
    requires |seen| == 4 && |points| == 4
    ensures |r| == 4
  {
    seq(4, k requires 0 <= k < 4 => seen[k] || InRect(wall, points[k]))
  }

  /** Which corners some wall among the first n contains, in the mask's bit order. */
  ghost function Scanned(s: seq<Rect>, n: nat, points: seq<Vec2>): (r: seq<bool>)
    requires n <= |s| && |points| == 4
    ensures |r| == 4
  {
    seq(4, k requires 0 <= k < 4 => CoveredBy(s, n, points[k]))
  }

  /** Scanning one more wall marks the corners that wall contains. */
  lemma ScanStep(s: seq<Rect>, i: nat, points: seq<Vec2>)
    requires i < |s| && |points| == 4
    ensures Marked(Scanned(s, i, points), s[i], points) == Scanned(s, i + 1, points)
  {
    forall k | 0 <= k < 4
      ensures Marked(Scanned(s, i, points), s[i], points)[k] == Scanned(s, i + 1, points)[k]
    {
      CoveredStep(s, i, points[k]);
    }
  }

  /** With the player's corners as points, a full mask after the scan means Inside. */
  lemma InsideByMask(s: seq<Rect>, player: Rect, points: seq<Vec2>)
    requires points == [Corner(player, 0), Corner(player, 1), Corner(player, 2), Corner(player, 3)]
    ensures MaskOf(Scanned(s, ScanLength(s, points[1].x), points)) == AllCorners <==> Inside(s, player)
  {
    var n := ScanLength(s, points[1].x);
    MaskFull(Scanned(s, n, points));
  }

  lemma CoveredStep(s: seq<Rect>, i: nat, p: Vec2)
    requires i < |s|
    ensures CoveredBy(s, i + 1, p) <==> CoveredBy(s, i, p) || InRect(s[i], p)
  {
    if CoveredBy(s, i + 1, p) && !InRect(s[i], p) {
      var j :| 0 <= j < i + 1 && InRect(s[j], p);
      assert j < i;
    }
  }

  /** Bit k of the mask is clear exactly when b[k] is false, and setting it marks b[k]. */
  lemma MaskBit(b: seq<bool>, k: nat)
    requires |b| == 4 && k < 4
    ensures (MaskOf(b) & (1 << k) == 0) <==> !b[k]
    ensures MaskOf(b) | (1 << k) == MaskOf(b[k := true])
  {
    var b' := b[k := true];
    if k == 0 {
      assert b'[1] == b[1] && b'[2] == b[2] && b'[3] == b[3];
    } else if k == 1 {
      assert b'[0] == b[0] && b'[2] == b[2] && b'[3] == b[3];
    } else if k == 2 {
      assert b'[0] == b[0] && b'[1] == b[1] && b'[3] == b[3];
    } else {
      assert b'[0] == b[0] && b'[1] == b[1] && b'[2] == b[2];
    }
  }

  /** The mask is AllCorners exactly when all four corners are marked. */
  lemma MaskFull(b: seq<bool>)
    requires |b| == 4
    ensures MaskOf(b) == AllCorners <==> b[0] && b[1] && b[2] && b[3]
  {
  }
}
