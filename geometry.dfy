/** The predicates shared by both hull algorithms: points with exact integer
    coordinates, the signed double area `Side` and the three-way `Orientation`. */
module Geometry {

  /** A point of the plane. The source uses float pairs; the model uses exact
      integers, so every sign test below is exact. */
  datatype Point = Point(x: int, y: int)

  /** Twice the signed area of the triangle (p1, p2, p): positive when p lies to
      the left of the directed line p1 -> p2, negative to its right, zero on it. */
  function Side(p1: Point, p2: Point, p: Point): int
  {
    (p.y - p1.y) * (p2.x - p1.x) - (p2.y - p1.y) * (p.x - p1.x)
  }

  /** The cross product that `Orientation` tests is minus the side of r with
      respect to the line p -> q. */
  lemma CrossIsNegatedSide(p: Point, q: Point, r: Point)
    ensures (q.y - p.y) * (r.x - q.x) - (q.x - p.x) * (r.y - q.y) == -Side(p, q, r)
  {
    var ax, ay := q.x - p.x, q.y - p.y;
    var cx, cy := r.x - q.x, r.y - q.y;
    assert r.x - p.x == ax + cx && r.y - p.y == ay + cy;
    calc {
      Side(p, q, r);
      (ay + cy) * ax - ay * (ax + cx);
      { assert (ay + cy) * ax == ay * ax + cy * ax; assert ay * (ax + cx) == ay * ax + ay * cx; }
      cy * ax - ay * cx;
    }
  }

  /** The category of three points: 0 when collinear, 1 when the cross product
      is positive (clockwise), 2 when it is negative (counter-clockwise). */
  function Orientation(p: Point, q: Point, r: Point): (c: int)
    ensures c == 0 <==> Side(p, q, r) == 0
    ensures c == 1 <==> Side(p, q, r) < 0
    ensures c == 2 <==> Side(p, q, r) > 0
  {
    CrossIsNegatedSide(p, q, r);
    var val := (q.y - p.y) * (r.x - q.x) - (q.x - p.x) * (r.y - q.y);
    if val == 0 then 0 else if val > 0 then 1 else 2
  }

  /** Both endpoints of a line lie on it. */
  lemma SideOfEndpoints(p1: Point, p2: Point)
    ensures Side(p1, p2, p1) == 0 && Side(p1, p2, p2) == 0
  {
  }

  /** Rotating the triangle keeps its signed area and swapping two corners
      negates it: the two child flags of a Quickhull step both equal the side
      of the chosen point with respect to the parent's line. */
  lemma SideRotation(p1: Point, p2: Point, m: Point)
    ensures -Side(p1, m, p2) == Side(p1, p2, m)
    ensures -Side(m, p2, p1) == Side(p1, p2, m)
  {
    var ux, uy := p2.x - p1.x, p2.y - p1.y;
    var vx, vy := m.x - p1.x, m.y - p1.y;
    assert Side(p1, p2, m) == vy * ux - uy * vx;
    assert Side(p1, m, p2) == uy * vx - vy * ux;
    assert p2.x - m.x == ux - vx && p2.y - m.y == uy - vy;
    calc {
      Side(m, p2, p1);
      (p1.y - m.y) * (p2.x - m.x) - (p2.y - m.y) * (p1.x - m.x);
      (-vy) * (ux - vx) - (uy - vy) * (-vx);
      { assert (-vy) * (ux - vx) == -(vy * ux) + vy * vx; assert (uy - vy) * (-vx) == -(uy * vx) + vy * vx; }
      uy * vx - vy * ux;
    }
  }
}
