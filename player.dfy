/** The player: a 20x20 square that moves vertically and switches lane on the action key. */
module Players {
  import opened Utils
  import opened Actors
  import opened Inputs

  /**
   * The vertical move of one tick: down first, clamped at the bottom edge,
   * then up, clamped at the top edge; `step` is delta_time * speed.
   */
  function MoveY(y: real, step: real, height: real, down: bool, up: bool): real
  {
    var afterDown := if down then Min(ScreenHeight - height, y + step) else y;
    if up then Max(0.0, afterDown - step) else afterDown
  }

  /** The lane toggle on a fresh action press. */
  function Toggle(laneType: int): int { 1 - laneType }

  class Player {
    /** The inherited actor part: lane type, speed and position. */
    const base: Actor
    const width: real
    const height: real

    /** A 20x20 player at (50, 200) with the given type and speed. */
    constructor (laneType: int, speed: real)
      ensures fresh(base)
      ensures base.laneType == laneType && base.speed == speed
      ensures base.pos == Vec2(50.0, 200.0) && width == 20.0 && height == 20.0
    {
      base := new Actor(laneType, speed);
      width, height := 20.0, 20.0;
      new;
      base.pos := Vec2(50.0, 200.0);
    }

    function GetSize(): (s: Vec2)
      ensures s == Vec2(width, height)
    {
      Vec2(width, height)
    }

    method SetPos(pos: Vec2)
      modifies base
      ensures base.pos == pos
      ensures base.laneType == old(base.laneType) && base.speed == old(base.speed)
    {
      base.pos := pos;
    }

    /** One tick of player input: vertical move, then lane toggle on a fresh action press. */
    method Update(deltaTime: real, input: Input)
      requires input.Valid()
      modifies base
      ensures base.pos == Vec2(old(base.pos.x),
                               MoveY(old(base.pos.y), Distance(deltaTime, old(base.speed)), height,
                                     input.KeyDown(PlayerDown), input.KeyDown(PlayerUp)))
      ensures base.laneType == if input.KeyPressed(PlayerAction) then Toggle(old(base.laneType)) else old(base.laneType)
      ensures base.speed == old(base.speed)
    {
      if input.KeyDown(PlayerDown) {
        base.pos := Vec2(base.pos.x, Min(ScreenHeight - height, base.pos.y + deltaTime * base.speed));
      }
      if input.KeyDown(PlayerUp) {
        base.pos := Vec2(base.pos.x, Max(0.0, base.pos.y - deltaTime * base.speed));
      }
      if input.KeyPressed(PlayerAction) {
        base.laneType := 1 - base.laneType;
      }
    }
  }

  /** A player on screen stays on screen after a move by a non-negative step. */
  lemma MoveStaysOnScreen(y: real, step: real, height: real, down: bool, up: bool)
    requires 0.0 <= y <= ScreenHeight - height && step >= 0.0
    ensures 0.0 <= MoveY(y, step, height, down, up) <= ScreenHeight - height
  {
  }

  /** Holding down lands at min(SCREEN_HEIGHT - height, y + step); holding up at max(0, y - step). */
  lemma MoveOneDirection(y: real, step: real, height: real)
    ensures MoveY(y, step, height, true, false) == Min(ScreenHeight - height, y + step)
    ensures MoveY(y, step, height, false, true) == Max(0.0, y - step)
  {
  }

  /** Without a key held the player does not move. */
  lemma MoveIdle(y: real, step: real, height: real)
    ensures MoveY(y, step, height, false, false) == y
  {
  }

  /** The toggle keeps the type in {0, 1}, and two toggles restore it. */
  lemma ToggleInvolution(laneType: int)
    requires laneType == 0 || laneType == 1
    ensures Toggle(laneType) == 0 || Toggle(laneType) == 1
    ensures Toggle(laneType) != laneType
    ensures Toggle(Toggle(laneType)) == laneType
  {
  }
}
