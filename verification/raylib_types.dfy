/** The value records the game borrows from raylib, with floats read as reals. */
module RaylibTypes {
  datatype Vector2 = Vector2(x: real, y: real)
  datatype Vector3 = Vector3(x: real, y: real, z: real)
  /** An axis-aligned rectangle: top-left corner (x, y), then its extent. */
  datatype Rectangle = Rectangle(x: real, y: real, width: real, height: real)
  datatype Color = Color(r: int, g: int, b: int, a: int)

  /** Squared Euclidean distance between two points of the plane. */
  function DistSq(p: Vector2, q: Vector2): real
  {
    (p.x - q.x) * (p.x - q.x) + (p.y - q.y) * (p.y - q.y)
  }

  /** The C cast `(int)f` of a float: truncation toward zero. */
  function Trunc(r: real): (t: int)
    ensures 0.0 <= r ==> t as real <= r < t as real + 1.0
    ensures r < 0.0 ==> t as real - 1.0 < r <= t as real
  {
    if r >= 0.0 then r.Floor else -((-r).Floor)
  }
}
