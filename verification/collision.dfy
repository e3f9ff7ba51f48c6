/** The collision tests of src/main.c in the XZ plane, and the axis-separated
    move that both the player and the pursuers use to slide along walls. Floats
    are read as reals. */
module Collision {
  import opened RaylibTypes
  import opened MazeFlags

  /** clampf: v pulled into [lo, hi], testing the lower bound first (so an
      empty interval, lo > hi, gives lo below lo and hi from lo upwards). */
  function Clamp(v: real, lo: real, hi: real): (r: real)
    ensures v < lo ==> r == lo
    ensures v >= lo && v > hi ==> r == hi
    ensures lo <= hi ==> lo <= r <= hi
    ensures lo <= hi ==> (r == v <==> lo <= v <= hi)
  {
    if v < lo then lo else if v > hi then hi else v
  }

  function Abs(a: real): real
  {
    if a < 0.0 then -a else a
  }

  /** Over a proper interval, the clamped value is the point of [lo, hi]
      nearest to v. */
  lemma ClampIsNearest(v: real, lo: real, hi: real, u: real)
    requires lo <= hi && lo <= u <= hi
    ensures Abs(v - Clamp(v, lo, hi)) <= Abs(v - u)
  {
  }

  /** Whether point p lies in the closed rectangle. */
  predicate InRect(p: Vector2, rect: Rectangle)
  {
    rect.x <= p.x <= rect.x + rect.width && rect.y <= p.y <= rect.y + rect.height
  }

  /** CircleRectIntersect: the rectangle point nearest the centre is found by
      clamping each coordinate, and the circle touches the rectangle when that
      point is within r (boundary included). */
  predicate CircleRectIntersect(c: Vector2, r: real, rect: Rectangle)
  {
    var nx := Clamp(c.x, rect.x, rect.x + rect.width);
    var nz := Clamp(c.y, rect.y, rect.y + rect.height);
    (c.x - nx) * (c.x - nx) + (c.y - nz) * (c.y - nz) <= r * r
  }

  lemma SquareMonotone(a: real, b: real)
    requires Abs(a) <= Abs(b)
    ensures a * a <= b * b
  {
    var p, q := Abs(a), Abs(b);
    assert a * a == p * p && b * b == q * q;
    assert q * q - p * p == (q - p) * (q + p);
    assert (q - p) * (q + p) >= 0.0;
  }

  /** The point of the rectangle nearest to c, one clamped coordinate at a time. */
  function Nearest(c: Vector2, rect: Rectangle): Vector2
  {
    Vector2(Clamp(c.x, rect.x, rect.x + rect.width), Clamp(c.y, rect.y, rect.y + rect.height))
  }

  /** No point of the rectangle is closer to c than the clamped point. */
  lemma NearestIsClosest(c: Vector2, rect: Rectangle, p: Vector2)
    requires InRect(p, rect)
    ensures InRect(Nearest(c, rect), rect)
    ensures DistSq(c, Nearest(c, rect)) <= DistSq(c, p)
  {
    var n := Nearest(c, rect);
    ClampIsNearest(c.x, rect.x, rect.x + rect.width, p.x);
    ClampIsNearest(c.y, rect.y, rect.y + rect.height, p.y);
    SquareMonotone(c.x - n.x, c.x - p.x);
    SquareMonotone(c.y - n.y, c.y - p.y);
  }

  /** For a rectangle with non-negative extent, the test is exact: it holds if
      and only if some point of the rectangle lies within distance r of the
      centre. */
  lemma CircleRectMeaning(c: Vector2, r: real, rect: Rectangle)
    requires rect.width >= 0.0 && rect.height >= 0.0
    ensures CircleRectIntersect(c, r, rect) <==> exists p :: InRect(p, rect) && DistSq(c, p) <= r * r
  {
    var n := Nearest(c, rect);
    assert CircleRectIntersect(c, r, rect) <==> DistSq(c, n) <= r * r;
    NearestIsClosest(c, rect, n);
    forall p | InRect(p, rect) && DistSq(c, p) <= r * r
      ensures DistSq(c, n) <= r * r
    {
      NearestIsClosest(c, rect, p);
    }
  }

  /** A centre inside the rectangle always collides, whatever the radius. */
  lemma CircleRectInside(c: Vector2, r: real, rect: Rectangle)
    requires InRect(c, rect)
    ensures CircleRectIntersect(c, r, rect)
  {
    assert r * r >= 0.0;
  }

  /** CircleCircleIntersect: the squared distance of the centres is at most
      the squared sum of the radii. */
  predicate CircleCircleIntersect(c1: Vector2, r1: real, c2: Vector2, r2: real)
  {
    DistSq(c1, c2) <= (r1 + r2) * (r1 + r2)
  }

  /** The test does not depend on which circle comes first, and two circles
      exactly r1 + r2 apart count as touching. */
  lemma CircleCircleSymmetric(c1: Vector2, r1: real, c2: Vector2, r2: real)
    ensures CircleCircleIntersect(c1, r1, c2, r2) == CircleCircleIntersect(c2, r2, c1, r1)
  {
    assert (c1.x - c2.x) * (c1.x - c2.x) == (c2.x - c1.x) * (c2.x - c1.x);
    assert (c1.y - c2.y) * (c1.y - c2.y) == (c2.y - c1.y) * (c2.y - c1.y);
  }

  lemma CircleCircleTouching(c1: Vector2, r1: real, c2: Vector2, r2: real)
    requires DistSq(c1, c2) == (r1 + r2) * (r1 + r2)
    ensures CircleCircleIntersect(c1, r1, c2, r2)
  {
  }

  /** The walls that a count of them designates: none when the count is not
      positive. */
  function Live(walls: array<WallRect>, count: int): (live: seq<WallRect>)
    requires count <= walls.Length
    reads walls
    ensures |live| == if count <= 0 then 0 else count
  {
    if count <= 0 then [] else walls[..count]
  }

  /** Some wall of the list touches the circle. */
  predicate Collides(c: Vector2, r: real, walls: seq<WallRect>)
  {
    exists i | 0 <= i < |walls| :: CircleRectIntersect(c, r, walls[i].rect)
  }

  /** CollidesAny: scans the first count walls and stops at the first hit. */
  method CollidesAny(c: Vector2, r: real, walls: array<WallRect>, count: int) returns (hit: bool)
    requires count <= walls.Length
    ensures hit <==> exists i | 0 <= i < count :: CircleRectIntersect(c, r, walls[i].rect)
    ensures hit == Collides(c, r, Live(walls, count))
  {
    var i := 0;
    while i < count
      invariant 0 <= i <= (if count < 0 then 0 else count)
      invariant forall j | 0 <= j < i :: !CircleRectIntersect(c, r, walls[j].rect)
    {
      if CircleRectIntersect(c, r, walls[i].rect) {
        return true;
      }
      i := i + 1;
    }
    return false;
  }

  /** The axis-separated move: first the step along x alone, kept only if the
      circle is free there; then the step along z from the x so obtained. */
  function SlideMove(p: Vector2, step: Vector2, r: real, walls: seq<WallRect>): Vector2
  {
    var x := if Collides(Vector2(p.x + step.x, p.y), r, walls) then p.x else p.x + step.x;
    if Collides(Vector2(x, p.y + step.y), r, walls) then Vector2(x, p.y) else Vector2(x, p.y + step.y)
  }

  /** A collision-free position stays collision-free: each accepted half-step
      was tested, and each refused one leaves a position already known free. */
  lemma SlideMoveStaysFree(p: Vector2, step: Vector2, r: real, walls: seq<WallRect>)
    requires !Collides(p, r, walls)
    ensures !Collides(SlideMove(p, step, r, walls), r, walls)
  {
    var x := if Collides(Vector2(p.x + step.x, p.y), r, walls) then p.x else p.x + step.x;
    assert !Collides(Vector2(x, p.y), r, walls) by {
      if x == p.x {
        assert Vector2(x, p.y) == p;
      }
    }
  }

  /** Each coordinate either takes its whole step or stays; with no walls in
      the way the whole step is taken, and when both half-steps are blocked the
      position does not change. */
  lemma SlideMoveOutcomes(p: Vector2, step: Vector2, r: real, walls: seq<WallRect>)
    ensures var q := SlideMove(p, step, r, walls);
      && (q.x == p.x || q.x == p.x + step.x)
      && (q.y == p.y || q.y == p.y + step.y)
      && (walls == [] ==> q == Vector2(p.x + step.x, p.y + step.y))
      && (Collides(Vector2(p.x + step.x, p.y), r, walls) && Collides(Vector2(p.x, p.y + step.y), r, walls) ==> q == p)
  {
  }

  /** A diagonal step into a wall degrades to a slide: from the origin, with
      radius 0.3, the step (1, 1) towards a wall covering x in [0.5, 1.5] and
      z in [-1, 1] loses its x part and keeps its z part. */
  lemma SlideAlongWall()
    ensures var wall := WallRect(Rectangle(0.5, -1.0, 1.0, 2.0), true);
      SlideMove(Vector2(0.0, 0.0), Vector2(1.0, 1.0), 0.3, [wall]) == Vector2(0.0, 1.0)
  {
    var walls := [WallRect(Rectangle(0.5, -1.0, 1.0, 2.0), true)];
    CircleRectInside(Vector2(1.0, 0.0), 0.3, walls[0].rect);
    assert Collides(Vector2(1.0, 0.0), 0.3, walls);
    assert Nearest(Vector2(0.0, 1.0), walls[0].rect) == Vector2(0.5, 1.0);
    assert !CircleRectIntersect(Vector2(0.0, 1.0), 0.3, walls[0].rect);
    assert !Collides(Vector2(0.0, 1.0), 0.3, walls);
  }

  /** The move as the frame loop performs it, through two calls of CollidesAny. */
  method MoveAxisSeparated(p: Vector2, step: Vector2, r: real, walls: array<WallRect>, count: int) returns (q: Vector2)
    requires count <= walls.Length
    ensures q == SlideMove(p, step, r, Live(walls, count))
    ensures !Collides(p, r, Live(walls, count)) ==> !Collides(q, r, Live(walls, count))
  {
    q := p;
    var testX := Vector2(q.x + step.x, q.y);
    var blockedX := CollidesAny(testX, r, walls, count);
    if !blockedX {
      q := q.(x := testX.x);
    }
    var testZ := Vector2(q.x, q.y + step.y);
    var blockedZ := CollidesAny(testZ, r, walls, count);
    if !blockedZ {
      q := q.(y := testZ.y);
    }
    if !Collides(p, r, Live(walls, count)) {
      SlideMoveStaysFree(p, step, r, Live(walls, count));
    }
  }
}
