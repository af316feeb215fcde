/** The state every moving entity shares: its lane type, its speed and its position. */
module Actors {
  import opened Utils

  /**
   * The base part of a wall or of the player. Wall and Player hold one of
   * these as `base` instead of inheriting from it.
   */
  class Actor {
    /** The lane (colour) the actor belongs to; `type` in the source. */
    var laneType: int
    var speed: real
    var pos: Vec2

    /** Stores the given type and speed; the position starts at the origin. */
    constructor (laneType: int, speed: real)
      ensures this.laneType == laneType && this.speed == speed
      ensures pos == Vec2(0.0, 0.0)
    {
      this.laneType := laneType;
      this.speed := speed;
      pos := Vec2(0.0, 0.0);
    }

    function GetType(): (t: int)
      reads this
      ensures t == laneType
    {
      laneType
    }

    method SetType(laneType: int)
      modifies this
      ensures this.laneType == laneType
      ensures speed == old(speed) && pos == old(pos)
    {
      this.laneType := laneType;
    }

    method SetSpeed(speed: real)
      modifies this
      ensures this.speed == speed
      ensures laneType == old(laneType) && pos == old(pos)
    {
      this.speed := speed;
    }

    function GetPos(): (p: Vec2)
      reads this
      ensures p == pos
    {
      pos
    }
  }
}
