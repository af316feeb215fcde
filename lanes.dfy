/**
 * The geometry of one lane as a sequence of rectangles, ordered left to
 * right, and what each per-tick pass does to it: scrolling, eviction of the
 * walls that left the screen, generation of new walls up to the right edge,
 * and the containment test of the player's box.
 */
module Lanes {
  import opened Utils

  const WallsWidth: real := 4.0
  const WallsMinHeight: real := 85.0

  /** How far below the screen a generated wall may reach (see NextWall). */
  const Overhang: real := WallsWidth - 1.0

  /** The wall that seeds an empty lane: just right of the screen, 50 high. */
  const Seed: Rect := Rect(Vec2(ScreenWidth + 20.0, 0.0), Vec2(WallsWidth, 50.0))

  function Last(s: seq<Rect>): Rect
    requires s != []
  {
    s[|s| - 1]
  }

  /** Each wall starts where the previous one ends. */
  ghost predicate Contiguous(s: seq<Rect>) {
    forall i | 0 < i < |s| :: s[i].pos.x == s[i - 1].pos.x + WallsWidth
  }

  /** A wall whose top is on screen and whose bottom is at most Overhang below it. */
  ghost predicate Placed(r: Rect) {
    r.size.x == WallsWidth && 0.0 <= r.pos.y && r.pos.y + r.size.y <= ScreenHeight + Overhang
  }

  ghost predicate AllPlaced(s: seq<Rect>) {
    forall i | 0 <= i < |s| :: Placed(s[i])
  }

  lemma {:induction false} ContiguousAt(s: seq<Rect>, i: nat)
    requires Contiguous(s) && i < |s|
    ensures s[i].pos.x == s[0].pos.x + WallsWidth * i as real
  {
    if i > 0 {
      ContiguousAt(s, i - 1);
    }
  }

  /** In a contiguous lane x strictly increases, so distinct positions hold distinct walls. */
  lemma ContiguousIncreasing(s: seq<Rect>, i: nat, j: nat)
    requires Contiguous(s) && i < j < |s|
    ensures s[i].pos.x < s[j].pos.x
  {
    ContiguousAt(s, i);
    ContiguousAt(s, j);
  }

  // ---------------------------------------------------------------- scrolling

  function Shift(r: Rect, d: real): Rect {
    Rect(Vec2(r.pos.x - d, r.pos.y), r.size)
  }

  /** Every wall of the lane moved left by the same distance `d`. */
  function Scrolled(s: seq<Rect>, d: real): (r: seq<Rect>)
    ensures |r| == |s|
  {
    seq(|s|, i requires 0 <= i < |s| => Shift(s[i], d))
  }

  /** Scrolling keeps the lane contiguous and placed, and never moves a wall right when d >= 0. */
  lemma ScrollKeepsShape(s: seq<Rect>, d: real)
    requires Contiguous(s) && AllPlaced(s)
    ensures Contiguous(Scrolled(s, d)) && AllPlaced(Scrolled(s, d))
    ensures d >= 0.0 ==> forall i | 0 <= i < |s| :: Scrolled(s, d)[i].pos.x <= s[i].pos.x
  {
  }

  // ----------------------------------------------------------------- eviction

  /** A wall whose right edge has scrolled to or past x = 0. */
  predicate Expired(r: Rect) {
    r.pos.x + WallsWidth <= 0.0
  }

  /** The number of leading walls that have expired. */
  function ExpiredCount(s: seq<Rect>): (n: nat)
    ensures n <= |s|
    ensures forall i | 0 <= i < n :: Expired(s[i])
    ensures n < |s| ==> !Expired(s[n])
  {
    if s != [] && Expired(s[0]) then 1 + ExpiredCount(s[1..]) else 0
  }

  /** What erase_old_walls leaves of a lane. */
  function Evicted(s: seq<Rect>): seq<Rect> {
    s[ExpiredCount(s)..]
  }

  /**
   * Eviction removes only a prefix of expired walls, keeps the rest in order,
   * leaves the lane empty or starting with a live wall, and is idempotent.
   */
  lemma EvictionShape(s: seq<Rect>)
    ensures exists n | 0 <= n <= |s| :: Evicted(s) == s[n..] && forall i | 0 <= i < n :: Expired(s[i])
    ensures Evicted(s) == [] || !Expired(Evicted(s)[0])
    ensures Evicted(Evicted(s)) == Evicted(s)
    ensures Contiguous(s) ==> Contiguous(Evicted(s))
    ensures AllPlaced(s) ==> AllPlaced(Evicted(s))
  {
    var n := ExpiredCount(s);
    assert Evicted(s) == s[n..];
  }

  // --------------------------------------------------------------- generation

  /** One random step of at most WallsWidth - 1: rand()%int(walls_width), negated on an odd rand(). */
  function Jitter(magnitude: nat, sign: nat): (d: int)
    ensures -4 < d < 4
  {
    var m := magnitude % 4;
    if sign % 2 == 1 then -m else m
  }

  /** The height clamp: at least WallsMinHeight, else at most what is left below `y`. */
  function ClampHeight(y: real, h: real): real {
    Max(WallsMinHeight, Min(ScreenHeight - y, h))
  }

  /** The y clamp as the source writes it: it bounds the new height, not the new y. */
  function ClampY(h: real): real {
    Max(0.0, Min(ScreenHeight - h, h))
  }

  /**
   * The wall generated at `x` after a wall at height `lastY` of height
   * `lastHeight`, using the four rand() results rand(c) .. rand(c + 3).
   */
  function NextWall(x: real, lastY: real, lastHeight: real, rand: nat -> nat, c: nat): (r: Rect)
    ensures r.pos.x == x && r.size.x == WallsWidth
    ensures r.size.y >= WallsMinHeight && r.pos.y >= 0.0
    ensures r.size.y <= ScreenHeight ==> r.pos.y + r.size.y <= ScreenHeight
    ensures lastY >= 0.0 ==> Placed(r)
  {
    var newY := lastY + Jitter(rand(c), rand(c + 1)) as real;
    var newHeight := ClampHeight(newY, lastHeight + Jitter(rand(c + 2), rand(c + 3)) as real);
    Rect(Vec2(x, ClampY(newHeight)), Vec2(WallsWidth, newHeight))
  }

  /** A measure that drops by at least one for each wall generated before the right edge. */
  function Remaining(x: real): nat {
    if x < ScreenWidth then (ScreenWidth - x).Floor + 1 else 0
  }

  /** The walls generate_walls appends, the first at `x`, while x stays left of the right edge. */
  function Grow(x: real, lastY: real, lastHeight: real, rand: nat -> nat, c: nat): seq<Rect>
    decreases Remaining(x)
  {
    if x < ScreenWidth then
      var w := NextWall(x, lastY, lastHeight, rand, c);
      [w] + Grow(x + WallsWidth, w.pos.y, w.size.y, rand, c + 4)
    else
      []
  }

  /**
   * The appended walls sit side by side from `x` on, the last one reaching the
   * right edge, and every one of them obeys the height and y clamps.
   */
  lemma {:induction false} GrowShape(x: real, lastY: real, lastHeight: real, rand: nat -> nat, c: nat)
    ensures var g := Grow(x, lastY, lastHeight, rand, c);
      && (g != [] <==> x < ScreenWidth)
      && (g != [] ==> g[0].pos.x == x && Last(g).pos.x + WallsWidth >= ScreenWidth)
      && Contiguous(g)
      && (forall i | 0 <= i < |g| :: g[i].size.y >= WallsMinHeight && g[i].pos.y >= 0.0)
      && (forall i | 0 <= i < |g| :: g[i].size.y <= ScreenHeight ==> g[i].pos.y + g[i].size.y <= ScreenHeight)
      && (lastY >= 0.0 ==> AllPlaced(g))
    decreases Remaining(x)
  {
    if x < ScreenWidth {
      var w := NextWall(x, lastY, lastHeight, rand, c);
      GrowShape(x + WallsWidth, w.pos.y, w.size.y, rand, c + 4);
    }
  }

  /** The number of rand() calls Grow uses: two signed steps per wall. */
  function GrowDraws(x: real, lastY: real, lastHeight: real, rand: nat -> nat, c: nat): nat {
    4 * |Grow(x, lastY, lastHeight, rand, c)|
  }

  /** One step of Grow: the next wall, then the walls grown after it. */
  lemma GrowStep(x: real, lastY: real, lastHeight: real, rand: nat -> nat, c: nat)
    requires x < ScreenWidth
    ensures var w := NextWall(x, lastY, lastHeight, rand, c);
      && Grow(x, lastY, lastHeight, rand, c) == [w] + Grow(x + WallsWidth, w.pos.y, w.size.y, rand, c + 4)
      && GrowDraws(x, lastY, lastHeight, rand, c) == 4 + GrowDraws(x + WallsWidth, w.pos.y, w.size.y, rand, c + 4)
  {
  }

  /** The x reached from `x` after k steps of WallsWidth. */
  function XAfter(x: real, k: nat): real
    decreases k
  {
    if k == 0 then x else XAfter(x + WallsWidth, k - 1)
  }

  lemma {:induction false} XAfterNext(x: real, k: nat)
    ensures XAfter(x, k + 1) == XAfter(x, k) + WallsWidth
    decreases k
  {
    if k > 0 {
      XAfterNext(x + WallsWidth, k - 1);
    }
  }

  /**
   * What is left of Grow after its first k walls is Grow restarted after the
   * k-th wall: k widths further right, from that wall's y and height, with
   * rand(c + 4k) onwards.
   */
  lemma {:induction false} GrowSuffix(x: real, lastY: real, lastHeight: real, rand: nat -> nat, c: nat, k: nat,
                                       xk: real, y: real, h: real, ck: nat)
    requires 0 < k <= |Grow(x, lastY, lastHeight, rand, c)| && xk == XAfter(x, k) && ck == c + 4 * k
    requires y == Grow(x, lastY, lastHeight, rand, c)[k - 1].pos.y
    requires h == Grow(x, lastY, lastHeight, rand, c)[k - 1].size.y
    ensures Grow(x, lastY, lastHeight, rand, c)[k..] == Grow(xk, y, h, rand, ck)
    decreases k
  {
    var g := Grow(x, lastY, lastHeight, rand, c);
    var w := NextWall(x, lastY, lastHeight, rand, c);
    var g' := Grow(x + WallsWidth, w.pos.y, w.size.y, rand, c + 4);
    assert g == [w] + g' by { GrowStep(x, lastY, lastHeight, rand, c); }
    assert g[k..] == g'[k - 1..];
    assert xk == XAfter(x + WallsWidth, k - 1);
    if k > 1 {
      assert g[k - 1] == g'[k - 2];
      GrowSuffix(x + WallsWidth, w.pos.y, w.size.y, rand, c + 4, k - 1, xk, y, h, ck);
    }
  }

  /**
   * The k-th appended wall is the one NextWall makes at XAfter(x, k) from the
   * wall before it (from lastY and lastHeight for the first), with rand(c + 4k) onwards.
   */
  lemma GrowAt(x: real, lastY: real, lastHeight: real, rand: nat -> nat, c: nat, k: nat, xk: real, y: real, h: real, ck: nat)
    requires k < |Grow(x, lastY, lastHeight, rand, c)| && xk == XAfter(x, k) && ck == c + 4 * k
    requires k == 0 ==> y == lastY && h == lastHeight
    requires k > 0 ==> y == Grow(x, lastY, lastHeight, rand, c)[k - 1].pos.y && h == Grow(x, lastY, lastHeight, rand, c)[k - 1].size.y
    ensures Grow(x, lastY, lastHeight, rand, c)[k] == NextWall(xk, y, h, rand, ck)
  {
    var g := Grow(x, lastY, lastHeight, rand, c);
    if k > 0 {
      GrowSuffix(x, lastY, lastHeight, rand, c, k, xk, y, h, ck);
      assert g[k] == g[k..][0];
      GrowLength(x, lastY, lastHeight, rand, c, k);
      GrowStep(xk, y, h, rand, ck);
    } else {
      GrowStep(x, y, h, rand, c);
    }
  }

  /** The k-th wall is generated exactly when k widths further right is still left of the right edge. */
  lemma {:induction false} GrowLength(x: real, lastY: real, lastHeight: real, rand: nat -> nat, c: nat, k: nat)
    requires k <= |Grow(x, lastY, lastHeight, rand, c)|
    ensures k < |Grow(x, lastY, lastHeight, rand, c)| <==> XAfter(x, k) < ScreenWidth
    decreases k
  {
    if k > 0 {
      var w := NextWall(x, lastY, lastHeight, rand, c);
      assert Grow(x, lastY, lastHeight, rand, c) == [w] + Grow(x + WallsWidth, w.pos.y, w.size.y, rand, c + 4);
      GrowLength(x + WallsWidth, w.pos.y, w.size.y, rand, c + 4, k - 1);
    }
  }

  /** Taking one more of g's walls onto a lane. */
  lemma TakeNext(a: seq<Rect>, g: seq<Rect>, k: nat)
    requires k < |g|
    ensures (a + g[..k]) + [g[k]] == a + g[..k + 1]
  {
    assert g[..k + 1] == g[..k] + [g[k]];
  }

  /** What generate_walls leaves of one lane, using rand(c) onwards. */
  function Refill(s: seq<Rect>, rand: nat -> nat, c: nat): seq<Rect> {
    if s == [] then [Seed]
    else s + Grow(Last(s).pos.x + WallsWidth, Last(s).pos.y, Last(s).size.y, rand, c)
  }

  /** The number of rand() calls Refill uses. */
  function RefillDraws(s: seq<Rect>, rand: nat -> nat, c: nat): nat {
    if s == [] then 0 else GrowDraws(Last(s).pos.x + WallsWidth, Last(s).pos.y, Last(s).size.y, rand, c)
  }

  /**
   * An empty lane gets exactly the seed wall; a non-empty one keeps its walls
   * and is extended contiguously until its back wall reaches the right edge.
   */
  lemma RefillShape(s: seq<Rect>, rand: nat -> nat, c: nat)
    requires Contiguous(s) && AllPlaced(s)
    ensures s == [] ==> Refill(s, rand, c) == [Seed]
    ensures s != [] ==> Refill(s, rand, c)[..|s|] == s
    ensures s != [] ==> Last(Refill(s, rand, c)).pos.x + WallsWidth >= ScreenWidth
    ensures Contiguous(Refill(s, rand, c)) && AllPlaced(Refill(s, rand, c))
  {
    if s != [] {
      var b := Last(s);
      var g := Grow(b.pos.x + WallsWidth, b.pos.y, b.size.y, rand, c);
      GrowShape(b.pos.x + WallsWidth, b.pos.y, b.size.y, rand, c);
      assert Refill(s, rand, c) == s + g;
      AppendShape(s, g);
      assert (s + g)[..|s|] == s;
      if g != [] {
        assert Last(s + g) == Last(g);
      } else {
        assert Last(s + g) == b;
      }
    }
  }

  /** Joining two lanes end to start keeps the lane contiguous and placed. */
  lemma AppendShape(a: seq<Rect>, b: seq<Rect>)
    requires Contiguous(a) && AllPlaced(a) && Contiguous(b) && AllPlaced(b)
    requires a != [] && b != [] ==> b[0].pos.x == Last(a).pos.x + WallsWidth
    ensures Contiguous(a + b) && AllPlaced(a + b)
  {
    var r := a + b;
    forall i | 0 < i < |r|
      ensures r[i].pos.x == r[i - 1].pos.x + WallsWidth
    {
      if i > |a| {
        assert r[i] == b[i - |a|] && r[i - 1] == b[i - 1 - |a|];
      }
    }
  }

  /**
   * As written, the y clamp makes a generated wall's y a function of its
   * height alone: the random walk of y only feeds the height clamp.
   */
  lemma GeneratedYFollowsHeight(x: real, lastY: real, lastHeight: real, rand: nat -> nat, c: nat)
    ensures var r := NextWall(x, lastY, lastHeight, rand, c);
      r.pos.y == if r.size.y <= ScreenHeight / 2.0 then r.size.y
                 else if r.size.y <= ScreenHeight then ScreenHeight - r.size.y
                 else 0.0
  {
  }

  /** A wall can reach Overhang below the screen: from y = 0 and full height, y steps to -3 and height to +3. */
  lemma HeightCanExceedScreen()
    ensures NextWall(0.0, 0.0, ScreenHeight, i => if i == 0 || i == 1 || i == 2 then 3 else 0, 0).size.y
            == ScreenHeight + Overhang
  {
  }

  // -------------------------------------------------------------- containment

  /** The player's corners in the order player_inside lists them. */
  function Corner(p: Rect, k: nat): Vec2
    requires k < 4
  {
    if k == 0 then p.pos
    else if k == 1 then Vec2(p.pos.x + p.size.x, p.pos.y + p.size.y)
    else if k == 2 then Vec2(p.pos.x + p.size.x, p.pos.y)
    else Vec2(p.pos.x, p.pos.y + p.size.y)
  }

  /** The length of the longest prefix of walls whose x is at most `bound`. */
  function ScanLength(s: seq<Rect>, bound: real): (n: nat)
    ensures n <= |s|
    ensures forall i | 0 <= i < n :: s[i].pos.x <= bound
    ensures n < |s| ==> s[n].pos.x > bound
  {
    if s != [] && s[0].pos.x <= bound then 1 + ScanLength(s[1..], bound) else 0
  }

  /** Some wall among the first `n` contains `p`. */
  ghost predicate CoveredBy(s: seq<Rect>, n: nat, p: Vec2)
    requires n <= |s|
  {
    exists j | 0 <= j < n :: InRect(s[j], p)
  }

  /** The result of player_inside: each corner lies in some scanned wall. */
  ghost predicate Inside(s: seq<Rect>, player: Rect) {
    var n := ScanLength(s, player.pos.x + player.size.x);
    forall k | 0 <= k < 4 :: CoveredBy(s, n, Corner(player, k))
  }

  /** An empty lane never contains the player. */
  lemma InsideEmptyLane(player: Rect)
    ensures !Inside([], player)
  {
    assert !CoveredBy([], 0, Corner(player, 0));
  }

  /**
   * Stopping the scan at the player's right edge loses nothing: in a
   * contiguous lane, the player is inside exactly when each corner lies in
   * some wall of the whole lane.
   */
  lemma InsideScanIsExact(s: seq<Rect>, player: Rect)
    requires Contiguous(s) && player.size.x >= 0.0
    ensures Inside(s, player) <==> forall k | 0 <= k < 4 :: CoveredBy(s, |s|, Corner(player, k))
  {
    var bound := player.pos.x + player.size.x;
    var n := ScanLength(s, bound);
    if forall k | 0 <= k < 4 :: CoveredBy(s, |s|, Corner(player, k)) {
      forall k | 0 <= k < 4
        ensures CoveredBy(s, n, Corner(player, k))
      {
        var p := Corner(player, k);
        var j :| 0 <= j < |s| && InRect(s[j], p);
        if j >= n {
          if j > n {
            ContiguousIncreasing(s, n, j);
          }
          assert false;
        }
      }
    }
  }

  /** A box lying in a single wall is inside. */
  lemma InsideOneWall(w: Rect, player: Rect)
    requires player.size.x >= 0.0 && player.size.y >= 0.0
    requires w.pos.x <= player.pos.x && player.pos.x + player.size.x <= w.pos.x + w.size.x
    requires w.pos.y <= player.pos.y && player.pos.y + player.size.y <= w.pos.y + w.size.y
    ensures Inside([w], player)
  {
    assert ScanLength([w], player.pos.x + player.size.x) == 1;
    forall k | 0 <= k < 4
      ensures CoveredBy([w], 1, Corner(player, k))
    {
      assert InRect([w][0], Corner(player, k));
    }
  }
}
