/** Screen constants, plane vectors and the float helpers shared by every component. */
module Utils {

  /** Fixed viewport size (SCREEN_WIDTH and SCREEN_HEIGHT). */
  const ScreenWidth: real := 800.0
  const ScreenHeight: real := 480.0

  /** A 2D float vector (sf::Vector2f); floats are modelled as reals. */
  datatype Vec2 = Vec2(x: real, y: real)

  /** An axis-aligned rectangle given by its top-left corner and its size. */
  datatype Rect = Rect(pos: Vec2, size: Vec2)

  /** The game's status enumeration (Game::MENU, READY, PLAYING, GAME_OVER). */
  datatype Status = Menu | Ready | Playing | GameOver

  function Min(a: real, b: real): real { if a <= b then a else b }

  function Max(a: real, b: real): real { if a >= b then a else b }

  /** The closed rectangle test: `p` lies on or inside the border of `r`. */
  predicate InRect(r: Rect, p: Vec2) {
    r.pos.x <= p.x <= r.pos.x + r.size.x && r.pos.y <= p.y <= r.pos.y + r.size.y
  }

  /** How far an actor moving at `speed` goes in a tick of `deltaTime` seconds. */
  function Distance(deltaTime: real, speed: real): real {
    deltaTime * speed
  }

  /** C++'s float-to-int conversion, which truncates toward zero. */
  function Trunc(r: real): (n: int)
    ensures 0.0 <= r ==> 0 <= n && n as real <= r < n as real + 1.0
    ensures r < 0.0 ==> n <= 0 && n as real - 1.0 < r <= n as real
  {
    if r >= 0.0 then r.Floor else -((-r).Floor)
  }
}
