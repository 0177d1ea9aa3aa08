/** Grid points and the Manhattan-distance geometry shared by the tile generator
    and its completability verifier. */
module Geometry {

  /** A grid point (x, y): x is the column, y the row. */
  datatype Point = Point(x: int, y: int)

  function Abs(n: int): (r: nat)
    ensures r == n || r == -n
  {
    if n < 0 then -n else n
  }

  /** Manhattan distance between two grid points. */
  function Manhattan(p: Point, q: Point): (d: nat)
    ensures d == 0 <==> p == q
    ensures d == Abs(q.x - p.x) + Abs(q.y - p.y)
  {
    Abs(p.x - q.x) + Abs(p.y - q.y)
  }

  /** `is_manhattan_close`: the two points are at Manhattan distance at most k. */
  predicate IsManhattanClose(p: Point, q: Point, k: int)
  {
    Manhattan(p, q) <= k
  }

  /** `inside_area`: the point lies in [x, width) x [y, height).  The last two
      arguments are exclusive upper bounds, not sizes. */
  predicate InsideArea(p: Point, x: int, y: int, width: int, height: int)
  {
    x <= p.x < width && y <= p.y < height
  }

  /** `get_manhattan`: every grid point within Manhattan distance k of `point`,
      found by filtering the (2k+1) x (2k+1) box around it. */
  function GetManhattan(point: Point, k: int): (ball: set<Point>)
    ensures forall c :: c in ball <==> IsManhattanClose(c, point, k)
  {
    var ball := set x, y | point.x - k <= x < point.x + k + 1 && point.y - k <= y < point.y + k + 1
                          && IsManhattanClose(Point(x, y), point, k) :: Point(x, y);
    assert forall c :: IsManhattanClose(c, point, k) ==> c == Point(c.x, c.y) && c in ball;
    ball
  }
}
