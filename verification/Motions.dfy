/**
What the closest pair measures: the squared Euclidean distance, as the only measure that motions of the plane leave
alone and that is the square along the x axis. Moving all points therefore changes neither search's answer.
 */
module Motions {
  import opened Sequences
  import opened ClosestPair

  /** Turned by the rotation with cosine c and sine s, then shifted by (u, v). */
  function Moved(a: Point, c: real, s: real, u: real, v: real): Point {
    Point(c * a.x - s * a.y + u, s * a.x + c * a.y + v)
  }

  function AllMoved(ps: seq<Point>, c: real, s: real, u: real, v: real): (qs: seq<Point>)
    ensures |qs| == |ps|
  {
    seq(|ps|, k requires 0 <= k < |ps| => Moved(ps[k], c, s, u, v))
  }

  /** A turn keeps the sum of squares. */
  lemma TurnKeepsSquares(c: real, s: real, p: real, q: real)
    requires c * c + s * s == 1.0
    ensures (c * p - s * q) * (c * p - s * q) + (s * p + c * q) * (s * p + c * q) == p * p + q * q
  {
    var cp, sq, sp, cq := c * p, s * q, s * p, c * q;
    assert (cp - sq) * (cp - sq) == cp * cp - 2.0 * (cp * sq) + sq * sq;
    assert (sp + cq) * (sp + cq) == sp * sp + 2.0 * (sp * cq) + cq * cq;
    assert cp * sq == sp * cq;
    assert cp * cp + sp * sp == (c * c + s * s) * (p * p);
    assert sq * sq + cq * cq == (c * c + s * s) * (q * q);
  }

  /** Motions keep the distance. */
  lemma DistMoved(a: Point, b: Point, c: real, s: real, u: real, v: real)
    requires c * c + s * s == 1.0
    ensures Dist(Moved(a, c, s, u, v), Moved(b, c, s, u, v)) == Dist(a, b)
  {
    var p, q := a.x - b.x, a.y - b.y;
    TurnKeepsSquares(c, s, p, q);
    assert c * p - s * q == (c * a.x - s * a.y) - (c * b.x - s * b.y);
    assert s * p + c * q == (s * a.x + c * a.y) - (s * b.x + c * b.y);
  }

  /** Along the x axis it is the square of the difference. */
  lemma DistOnAxis(r: real)
    ensures Dist(Point(0.0, 0.0), Point(r, 0.0)) == r * r
  {}

  /** A measure that motions keep and that is the square along the x axis. */
  ghost predicate IsSquaredDistance(d: (Point, Point) -> real) {
    && (forall a: Point, b: Point, c: real, s: real, u: real, v: real :: c * c + s * s == 1.0 ==>
          d(Moved(a, c, s, u, v), Moved(b, c, s, u, v)) == d(a, b))
    && (forall r: real :: d(Point(0.0, 0.0), Point(r, 0.0)) == r * r)
  }

  lemma DistIsSquaredDistance()
    ensures IsSquaredDistance(Dist)
  {
    forall a: Point, b: Point, c: real, s: real, u: real, v: real | c * c + s * s == 1.0
      ensures Dist(Moved(a, c, s, u, v), Moved(b, c, s, u, v)) == Dist(a, b)
    {
      DistMoved(a, b, c, s, u, v);
    }
    forall r: real ensures Dist(Point(0.0, 0.0), Point(r, 0.0)) == r * r { DistOnAxis(r); }
  }

  /** Every list that holds the moved points has the same least distance. */
  lemma MovedClosest(ps: seq<Point>, qs: seq<Point>, c: real, s: real, u: real, v: real, limit: real, m: real, n: real,
                     pair: Option<(Point, Point)>, pair': Option<(Point, Point)>)
    requires c * c + s * s == 1.0 && SamePoints(AllMoved(ps, c, s, u, v), qs)
    requires IsClosest(ps, limit, m, pair) && IsClosest(qs, limit, n, pair')
    ensures m == n
  {
    hide Dist, Moved;
    var ms := AllMoved(ps, c, s, u, v);
    forall i, j | 0 <= i < j < |ps| ensures Dist(ms[i], ms[j]) == Dist(ps[i], ps[j]) {
      DistMoved(ps[i], ps[j], c, s, u, v);
    }
    var moved: Option<(Point, Point)> := None;
    if pair.Some? {
      var (a, b) := pair.value;
      moved := Some((Moved(a, c, s, u, v), Moved(b, c, s, u, v)));
      DistMoved(a, b, c, s, u, v);
      var i, j :| 0 <= i < |ps| && 0 <= j < |ps| && i != j && ps[i] == a && ps[j] == b;
      assert ms[i] == moved.value.0 && ms[j] == moved.value.1;
    }
    assert IsClosest(ms, limit, m, moved);
    ClosestUnique(ms, qs, limit, m, n, moved, pair');
  }

  /** No other measure is kept by motions and is the square along the axis. */
  lemma OnlyDistance(d: (Point, Point) -> real, sqrt: real -> real, a: Point, b: Point)
    requires IsSquaredDistance(d) && IsRoot(sqrt)
    ensures d(a, b) == Dist(a, b)
  {
    hide Moved, Dist;
    DistSymmetric(a, b);
    DistNonNegative(a, b);
    var r := sqrt(Dist(a, b));
    var c, s, u, v := OntoAxis(a, b, r);
    assert d(Moved(a, c, s, u, v), Moved(b, c, s, u, v)) == d(a, b);
    assert d(Point(0.0, 0.0), Point(r, 0.0)) == r * r;
  }

  /** The motion that takes a to the origin and b to the axis. */
  lemma OntoAxis(a: Point, b: Point, r: real) returns (c: real, s: real, u: real, v: real)
    requires r >= 0.0 && r * r == Dist(a, b)
    ensures c * c + s * s == 1.0
    ensures Moved(a, c, s, u, v) == Point(0.0, 0.0) && Moved(b, c, s, u, v) == Point(r, 0.0)
  {
    var p, q := b.x - a.x, b.y - a.y;
    SquareOfDifference(a, b);
    c, s := Direction(p, q, r);
    u, v := s * a.y - c * a.x, -(s * a.x) - c * a.y;
    assert c * b.x - s * b.y + u == c * p - s * q;
    assert s * b.x + c * b.y + v == s * p + c * q;
  }

  lemma SquareOfDifference(a: Point, b: Point)
    ensures Dist(a, b) == (b.x - a.x) * (b.x - a.x) + (b.y - a.y) * (b.y - a.y)
  {
    DistSymmetric(a, b);
  }

  /** The turn that takes (p, q) to (r, 0). */
  lemma Direction(p: real, q: real, r: real) returns (c: real, s: real)
    requires r >= 0.0 && r * r == p * p + q * q
    ensures c * c + s * s == 1.0 && c * p - s * q == r && s * p + c * q == 0.0
  {
    if r == 0.0 {
      SquaresZero(p, q);
      c, s := 1.0, 0.0;
    } else {
      c, s := p / r, -q / r;
      assert c * r == p && s * r == -q;
      UnitVector(p, q, r, c, s);
    }
  }

  lemma SquaresZero(p: real, q: real)
    requires p * p + q * q == 0.0
    ensures p == 0.0 && q == 0.0
  {
    var x := ProductPositive(p, p);
    var y := ProductPositive(q, q);
    assert x + y == 0.0;
    if p == 0.0 { assert x == 0.0; }
    if q == 0.0 { assert y == 0.0; }
  }

  lemma ProductPositive(a: real, b: real) returns (x: real)
    ensures x == a * b && ((a > 0.0 && b > 0.0) || (a < 0.0 && b < 0.0) ==> x > 0.0)
  {
    x := a * b;
  }

  lemma UnitVector(p: real, q: real, r: real, c: real, s: real)
    requires r > 0.0 && r * r == p * p + q * q && p == c * r && q == -(s * r)
    ensures c * c + s * s == 1.0 && c * p - s * q == r && s * p + c * q == 0.0
  {
    var rr := ProductPositive(r, r);
    var cc, ss := c * c, s * s;
    var pp := SquareOfProduct(c, r, p, cc, rr);
    var qq := SquareOfProduct(s, r, -q, ss, rr);
    assert qq == q * q;
    assert rr == pp + qq;
    Cancel(cc, ss, rr, pp, qq);
    TurnedOnto(p, q, r, c, s);
  }

  lemma TurnedOnto(p: real, q: real, r: real, c: real, s: real)
    requires c * c + s * s == 1.0 && p == c * r && q == -(s * r)
    ensures c * p - s * q == r && s * p + c * q == 0.0
  {
    var cc, ss := c * c, s * s;
    assert c * p == cc * r && s * q == -(ss * r);
    assert cc * r + ss * r == (cc + ss) * r;
    assert s * p == s * c * r && c * q == -(c * s * r);
  }

  lemma SquareOfProduct(c: real, r: real, p: real, cc: real, rr: real) returns (pp: real)
    requires p == c * r && cc == c * c && rr == r * r
    ensures pp == p * p && pp == cc * rr
  {
    pp := p * p;
    assert (c * r) * (c * r) == (c * c) * (r * r);
  }

  lemma Cancel(m: real, n: real, x: real, y: real, z: real)
    requires x > 0.0 && y == m * x && z == n * x && x == y + z
    ensures m + n == 1.0
  {
    assert (m + n - 1.0) * x == 0.0;
  }
}
