/** A wall: one fixed-size rectangle of a lane, scrolling left. */
module Walls {
  import opened Utils
  import opened Actors

  class Wall {
    /** The inherited actor part: lane type, speed and position. */
    const base: Actor
    const size: Vec2

    /** Stores the given type, speed, position and size unchanged. */
    constructor (laneType: int, speed: real, pos: Vec2, size: Vec2)
      ensures fresh(base)
      ensures base.laneType == laneType && base.speed == speed
      ensures base.pos == pos && this.size == size
    {
      base := new Actor(laneType, speed);
      this.size := size;
      new;
      base.pos := pos;
    }

    /** One scroll step: x moves left by delta_time * speed, nothing else changes. */
    method Update(deltaTime: real)
      modifies base
      ensures base.pos == Vec2(old(base.pos.x) - Distance(deltaTime, old(base.speed)), old(base.pos.y))
      ensures base.laneType == old(base.laneType) && base.speed == old(base.speed)
    {
      base.pos := Vec2(base.pos.x - deltaTime * base.speed, base.pos.y);
    }

    function GetSize(): (s: Vec2)
      ensures s == size
    {
      size
    }

    /** The rectangle the wall covers now. */
    function Bounds(): Rect
      reads base
    {
      Rect(base.pos, size)
    }

    /** The closed-rectangle point test. */
    function ContainsPoint(p: Vec2): (r: bool)
      reads base
      ensures r <==> InRect(Bounds(), p)
    {
      p.x >= base.pos.x && p.x <= base.pos.x + size.x &&
      p.y >= base.pos.y && p.y <= base.pos.y + size.y
    }
  }

  /** With a non-negative size both the top-left and the bottom-right corner are inside. */
  lemma CornersContained(w: Wall)
    requires w.size.x >= 0.0 && w.size.y >= 0.0
    ensures w.ContainsPoint(w.base.pos)
    ensures w.ContainsPoint(Vec2(w.base.pos.x + w.size.x, w.base.pos.y + w.size.y))
  {
  }
}
