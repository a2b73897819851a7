/**
Closest pair of points: the brute-force search, and divide and conquer over a list sorted by x and one sorted by y,
which must find the same minimum. Coordinates are exact; the square root is any function that squares back.

In contracts `P(..) == true` means P(..): compared with `true`, a predicate is passed on as a whole instead of being
taken apart at every call.
 */
module ClosestPair {
  import opened Sequences

  datatype Point = Point(x: real, y: real)

  function Dist(a: Point, b: Point): real {
    var dx, dy := a.x - b.x, a.y - b.y;
    dx * dx + dy * dy
  }

  // ---- what both searches compute

  /** No pair of positions of ps is closer than m. */
  ghost predicate NoneCloser(ps: seq<Point>, m: real) {
    forall i, j :: 0 <= i < j < |ps| ==> m <= Dist(ps[i], ps[j])
  }

  /** a and b stand at two positions of ps. */
  ghost predicate PairOf(ps: seq<Point>, a: Point, b: Point) {
    exists i, j :: 0 <= i < |ps| && 0 <= j < |ps| && i != j && ps[i] == a && ps[j] == b
  }

  /** m is the least squared distance of two positions, or limit if every distance is at least limit; below limit, pair
      is two positions that attain it. */
  ghost predicate IsClosest(ps: seq<Point>, limit: real, m: real, pair: Option<(Point, Point)>) {
    NoneCloser(ps, m) && Attained(ps, limit, m, pair)
  }

  ghost predicate Attained(ps: seq<Point>, limit: real, m: real, pair: Option<(Point, Point)>) {
    && m <= limit && (pair.None? ==> m == limit)
    && (pair.Some? ==> m < limit && Dist(pair.value.0, pair.value.1) == m && PairOf(ps, pair.value.0, pair.value.1))
  }

  /** ps and qs list the same points. */
  ghost predicate SamePoints(ps: seq<Point>, qs: seq<Point>) {
    multiset(ps) == multiset(qs)
  }

  /** The minimum does not depend on the order of the points or on how it was found. */
  lemma ClosestUnique(ps: seq<Point>, qs: seq<Point>, limit: real, m: real, n: real,
                      pair: Option<(Point, Point)>, pair': Option<(Point, Point)>)
    requires SamePoints(ps, qs) && IsClosest(ps, limit, m, pair) && IsClosest(qs, limit, n, pair')
    ensures m == n
  {
    if m < n { PairMoves(ps, qs, pair.value.0, pair.value.1); }
    if n < m { PairMoves(qs, ps, pair'.value.0, pair'.value.1); }
  }

  lemma DistSymmetric(a: Point, b: Point)
    ensures Dist(a, b) == Dist(b, a)
  {
    assert (a.x - b.x) * (a.x - b.x) == (b.x - a.x) * (b.x - a.x);
    assert (a.y - b.y) * (a.y - b.y) == (b.y - a.y) * (b.y - a.y);
  }

  /** A pair of positions of ps is a pair of positions of every rearrangement of ps. */
  lemma PairMoves(ps: seq<Point>, qs: seq<Point>, a: Point, b: Point)
    requires SamePoints(ps, qs) && PairOf(ps, a, b)
    ensures PairOf(qs, a, b)
    ensures forall m :: NoneCloser(qs, m) ==> m <= Dist(a, b)
  {
    var i, j :| 0 <= i < |ps| && 0 <= j < |ps| && i != j && ps[i] == a && ps[j] == b;
    TwoPositions(ps, i, j);
    var k, l := FindTwo(qs, a, b);
    DistSymmetric(a, b);
    forall m | NoneCloser(qs, m) ensures m <= Dist(a, b) {
      if k < l { assert m <= Dist(qs[k], qs[l]); } else { assert m <= Dist(qs[l], qs[k]); }
    }
  }

  method BruteForce(ps: seq<Point>, limit: real) returns (min_d: real, pair: Option<(Point, Point)>)
    ensures IsClosest(ps, limit, min_d, pair)
  {
    min_d, pair := limit, None;
    for i := 0 to |ps|
      invariant min_d <= limit
      invariant forall k, l :: 0 <= k < i && k < l < |ps| ==> min_d <= Dist(ps[k], ps[l])
      invariant pair.None? ==> min_d == limit
      invariant pair.Some? ==> min_d < limit && Dist(pair.value.0, pair.value.1) == min_d
                               && PairOf(ps, pair.value.0, pair.value.1)
    {
      for j := i + 1 to |ps|
        invariant min_d <= limit
        invariant forall k, l :: 0 <= k < i && k < l < |ps| ==> min_d <= Dist(ps[k], ps[l])
        invariant forall l :: i < l < j ==> min_d <= Dist(ps[i], ps[l])
        invariant pair.None? ==> min_d == limit
        invariant pair.Some? ==> min_d < limit && Dist(pair.value.0, pair.value.1) == min_d
                                 && PairOf(ps, pair.value.0, pair.value.1)
      {
        var d := Dist(ps[i], ps[j]);
        if d >= min_d { continue; }
        pair := Some((ps[i], ps[j]));
        min_d := d;
      }
    }
  }

  // ---- the input lists

  ghost predicate SortedByX(ps: seq<Point>) {
    forall i, j :: 0 <= i < j < |ps| ==> ps[i].x <= ps[j].x
  }

  ghost predicate SortedByY(ps: seq<Point>) {
    forall i, j :: 0 <= i < j < |ps| ==> ps[i].y <= ps[j].y
  }

  /** No two points on either side of a cut of the recursion share their x. */
  ghost predicate CleanCuts(ps: seq<Point>) {
    |ps| <= 8 ||
    (var h := |ps| / 2; ps[h - 1].x < ps[h].x && CleanCuts(ps[..h]) && CleanCuts(ps[h..]))
  }

  /** Pairwise distinct x is enough for clean cuts. */
  lemma {:induction false} DistinctXIsClean(ps: seq<Point>)
    requires forall i, j :: 0 <= i < j < |ps| ==> ps[i].x < ps[j].x
    ensures CleanCuts(ps)
    decreases |ps|
  {
    if |ps| > 8 {
      var h := |ps| / 2;
      DistinctXIsClean(ps[..h]);
      DistinctXIsClean(ps[h..]);
    }
  }

  // ---- splitting a list at a vertical line

  /** On the given side of the line, and within d of it when d is given. */
  predicate Selected(p: Point, mid: real, left: bool, d: Option<real>) {
    left == (p.x - mid < 0.0) && (d.Some? ==> -d.value < p.x - mid < d.value)
  }

  function Keep(ps: seq<Point>, mid: real, left: bool, d: Option<real>): seq<Point> {
    if ps == [] then []
    else
      var p := ps[|ps| - 1];
      Keep(ps[..|ps| - 1], mid, left, d) + if Selected(p, mid, left, d) then [p] else []
  }

  lemma {:induction false} KeepMultiset(ps: seq<Point>, mid: real, left: bool, d: Option<real>, p: Point)
    ensures multiset(Keep(ps, mid, left, d))[p] == if Selected(p, mid, left, d) then multiset(ps)[p] else 0
  {
    if ps != [] {
      var n := |ps| - 1;
      KeepMultiset(ps[..n], mid, left, d, p);
      assert ps == ps[..n] + [ps[n]];
    }
  }

  lemma {:induction false} KeepSorted(ps: seq<Point>, mid: real, left: bool, d: Option<real>)
    requires SortedByY(ps)
    ensures SortedByY(Keep(ps, mid, left, d))
    ensures forall p :: p in Keep(ps, mid, left, d) ==> p in ps
  {
    hide Keep, Selected;
    if ps == [] {
      KeepNone(mid, left, d);
    } else {
      var n := |ps| - 1;
      assert ps[..n + 1] == ps;
      KeepSorted(ps[..n], mid, left, d);
      KeepStep(ps, n, mid, left, d);
      var k := Keep(ps[..n], mid, left, d);
      forall p | p in k ensures p.y <= ps[n].y {
        var i :| 0 <= i < n && ps[..n][i] == p;
        assert ps[i] == p;
      }
    }
  }

  lemma KeepNone(mid: real, left: bool, d: Option<real>)
    ensures Keep([], mid, left, d) == []
  {}

  /** At a clean cut the points left and right of the line are the two halves of the list sorted by x. */
  lemma HalvesBySide(sx: seq<Point>, sy: seq<Point>, h: nat)
    requires SortedByX(sx) && SamePoints(sx, sy) && 0 < h < |sx| && sx[h - 1].x < sx[h].x
    ensures SamePoints(sx[..h], Keep(sy, sx[h].x, true, None))
    ensures SamePoints(sx[h..], Keep(sy, sx[h].x, false, None))
  {
    var mid, l, r := sx[h].x, sx[..h], sx[h..];
    assert sx == l + r;
    SidesOfCut(sx, h);
    hide Keep, SortedByX, Selected;
    HalfIs(sy, l, r, mid);
  }

  lemma SidesOfCut(sx: seq<Point>, h: nat)
    requires SortedByX(sx) && 0 < h < |sx| && sx[h - 1].x < sx[h].x
    ensures forall q :: q in sx[..h] ==> q.x < sx[h].x
    ensures forall q :: q in sx[h..] ==> q.x >= sx[h].x
  {
    forall q | q in sx[..h] ensures q.x < sx[h].x { var i :| 0 <= i < h && sx[i] == q; }
    forall q | q in sx[h..] ensures q.x >= sx[h].x { var i :| h <= i < |sx| && sx[i] == q; }
  }

  lemma HalfIs(sy: seq<Point>, l: seq<Point>, r: seq<Point>, mid: real)
    requires multiset(sy) == multiset(l + r)
    requires (forall q :: q in l ==> q.x < mid) && (forall q :: q in r ==> q.x >= mid)
    ensures multiset(Keep(sy, mid, true, None)) == multiset(l)
    ensures multiset(Keep(sy, mid, false, None)) == multiset(r)
  {
    hide *;
    forall p: Point
      ensures multiset(Keep(sy, mid, true, None))[p] == multiset(l)[p]
      ensures multiset(Keep(sy, mid, false, None))[p] == multiset(r)[p]
    {
      HalfOf(sy, l, r, mid, p);
    }
  }

  lemma HalfOf(sy: seq<Point>, l: seq<Point>, r: seq<Point>, mid: real, p: Point)
    requires multiset(sy) == multiset(l + r)
    requires (forall q :: q in l ==> q.x < mid) && (forall q :: q in r ==> q.x >= mid)
    ensures multiset(Keep(sy, mid, true, None))[p] == multiset(l)[p]
    ensures multiset(Keep(sy, mid, false, None))[p] == multiset(r)[p]
  {
    hide Keep;
    KeepMultiset(sy, mid, true, None, p);
    KeepMultiset(sy, mid, false, None, p);
    assert multiset(sy)[p] == multiset(l)[p] + multiset(r)[p];
    if p.x < mid { assert p !in r; } else { assert p !in l; }
  }

  lemma KeepStep(ps: seq<Point>, i: nat, mid: real, left: bool, d: Option<real>)
    requires i < |ps|
    ensures Selected(ps[i], mid, left, d)
        ==> Keep(ps[..i + 1], mid, left, d) == Keep(ps[..i], mid, left, d) + [ps[i]]
    ensures !Selected(ps[i], mid, left, d) ==> Keep(ps[..i + 1], mid, left, d) == Keep(ps[..i], mid, left, d)
  {
    assert ps[..i + 1][..i] == ps[..i];
  }

  predicate Outside(p: Point, mid: real, d: Option<real>) {
    d.Some? && (p.x - mid <= -d.value || p.x - mid >= d.value)
  }

  /** Where the next point goes. */
  lemma FillStep(ps: seq<Point>, i: nat, mid: real, d: Option<real>)
    requires i < |ps|
    ensures d.None? ==> !Outside(ps[i], mid, d)
    ensures Keep(ps[..i + 1], mid, true, d)
         == Keep(ps[..i], mid, true, d) + if !Outside(ps[i], mid, d) && ps[i].x - mid < 0.0 then [ps[i]] else []
    ensures Reversed(Keep(ps[..i + 1], mid, false, d))
         == (if !Outside(ps[i], mid, d) && ps[i].x - mid >= 0.0 then [ps[i]] else [])
             + Reversed(Keep(ps[..i], mid, false, d))
  {
    KeepStep(ps, i, mid, true, d);
    KeepStep(ps, i, mid, false, d);
    ReversedAppend(Keep(ps[..i], mid, false, d), ps[i]);
    hide Keep, Reversed;
    assert Selected(ps[i], mid, true, d) <==> !Outside(ps[i], mid, d) && ps[i].x - mid < 0.0;
    assert Selected(ps[i], mid, false, d) <==> !Outside(ps[i], mid, d) && ps[i].x - mid >= 0.0;
  }

  lemma FillStart(ps: seq<Point>, mid: real, d: Option<real>)
    ensures Keep(ps[..0], mid, true, d) == [] && Reversed(Keep(ps[..0], mid, false, d)) == []
  {}

  /** Fills the buffer with the selected points: left of the line from the front, right of it from the back. */
  method Fill(sy: seq<Point>, mid: real, d: Option<real>, buf: array<Point>) returns (left: int, right: int)
    requires buf.Length == |sy|
    modifies buf
    ensures -1 <= left < right <= |sy| && (d.None? ==> left + 1 == right)
    ensures buf[..left + 1] == Keep(sy, mid, true, d) && buf[right..] == Reversed(Keep(sy, mid, false, d))
  {
    hide *;
    var ny := |sy|;
    left, right := -1, ny;
    ghost var front: seq<Point>, back: seq<Point> := [], [];
    FillStart(sy, mid, d);
    for i := 0 to ny
      invariant -1 <= left < right <= ny && left + 1 + ny - right <= i && |front| == left + 1 && |back| == ny - right
      invariant d.None? ==> left + 1 + ny - right == i
      invariant front == Keep(sy[..i], mid, true, d) && back == Reversed(Keep(sy[..i], mid, false, d))
      invariant buf[..left + 1] == front && buf[right..] == back
    {
      FillStep(sy, i, mid, d);
      if Outside(sy[i], mid, d) { continue; }
      if sy[i].x - mid < 0.0 {
        left := left + 1;
        buf[left] := sy[i];
        front := front + [sy[i]];
      } else {
        right := right - 1;
        buf[right] := sy[i];
        back := [sy[i]] + back;
      }
    }
    assert sy[..ny] == sy;
  }

  /** Reverses the part of the buffer from right on. */
  method ReverseTail(buf: array<Point>, from: nat)
    requires from <= buf.Length
    modifies buf
    ensures buf[..from] == old(buf[..from]) && buf[from..] == Reversed(old(buf[from..]))
  {
    hide Reversed;
    var right, i := from, buf.Length - 1;
    while right < i
      invariant from <= right && i == from + buf.Length - 1 - right && right <= i + 1
      invariant forall k :: 0 <= k < from ==> buf[k] == old(buf[k])
      invariant forall k :: from <= k < right || i < k < buf.Length ==> buf[k] == old(buf[from + buf.Length - 1 - k])
      invariant forall k :: right <= k <= i ==> buf[k] == old(buf[k])
    {
      buf[right], buf[i] := buf[i], buf[right];
      right, i := right + 1, i - 1;
    }
    IsReversed(old(buf[from..]), buf[from..]);
  }

  // ---- the strip

  lemma FarApart(u: real, v: real, d: real, e: real)
    requires d >= 0.0 && (u - v >= d || v - u >= d)
    ensures (u - v) * (u - v) + e * e >= d * d
  {
    var w := if u - v >= d then u - v else v - u;
    assert w * w >= d * w;
    assert d * w >= d * d;
    assert (u - v) * (u - v) == w * w;
    assert e * e >= 0.0;
  }

  /** Points at least d apart in one coordinate are at squared distance at least d * d. */
  lemma FarInOneCoordinate(p: Point, q: Point, d: real)
    requires d >= 0.0
    ensures q.y - p.y >= d || p.y - q.y >= d ==> Dist(p, q) >= d * d
    ensures q.x - p.x >= d || p.x - q.x >= d ==> Dist(p, q) >= d * d
  {
    if q.y - p.y >= d || p.y - q.y >= d { FarApart(p.y, q.y, d, p.x - q.x); }
    if q.x - p.x >= d || p.x - q.x >= d { FarApart(p.x, q.x, d, p.y - q.y); }
  }

  ghost predicate IsRoot(sqrt: real -> real) {
    forall v: real :: v >= 0.0 ==> sqrt(v) >= 0.0 && sqrt(v) * sqrt(v) == v
  }

  ghost predicate RootOf(d: real, m: real) {
    d >= 0.0 && d * d == m
  }

  lemma RootTaken(sqrt: real -> real, m: real)
    requires IsRoot(sqrt) && m >= 0.0
    ensures RootOf(sqrt(m), m)
  {}

  lemma DistNonNegative(p: Point, q: Point)
    ensures Dist(p, q) >= 0.0
  {
    FarApart(p.x, q.x, 0.0, p.y - q.y);
  }

  /** The search result after looking at some cross pairs: pair is where it was found, if it improved. */
  ghost predicate Improved(ls: seq<Point>, rs: seq<Point>, min0: real, pair0: Option<(Point, Point)>,
                           m: real, pair: Option<(Point, Point)>) {
    && 0.0 <= m <= min0
    && (m == min0 ==> pair == pair0)
    && (m < min0 ==> pair.Some? && Dist(pair.value.0, pair.value.1) == m && pair.value.0 in ls && pair.value.1 in rs)
  }

  /** A closer pair of the strip. */
  lemma ImproveBy(ls: seq<Point>, rs: seq<Point>, min0: real, pair0: Option<(Point, Point)>,
                  m: real, pair: Option<(Point, Point)>, p: Point, q: Point)
    requires Improved(ls, rs, min0, pair0, m, pair) && p in ls && q in rs && Dist(p, q) < m
    ensures Dist(p, q) >= 0.0 && Improved(ls, rs, min0, pair0, Dist(p, q), Some((p, q)))
  {
    DistNonNegative(p, q);
    hide Dist;
  }

  /** No point of ps is closer to p than m. */
  ghost predicate ClearOf(p: Point, ps: seq<Point>, m: real) {
    forall q :: q in ps ==> m <= Dist(p, q)
  }

  /** Compares the left point p with the right points from the cursor on, until they are too far below it. */
  method ScanRight(buf: array<Point>, p: Point, from: nat, right: int, ghost ls: seq<Point>, ghost min0: real,
                   ghost pair0: Option<(Point, Point)>, m: real, pair1: Option<(Point, Point)>, d1: real,
                   sqrt: real -> real)
    returns (min_d: real, pair: Option<(Point, Point)>, d: real)
    requires IsRoot(sqrt) && from <= right <= buf.Length && p in ls
    requires forall k, l :: from <= k < l < buf.Length ==> buf[k].y >= buf[l].y
    requires Improved(ls, buf[from..], min0, pair0, m, pair1) == true && RootOf(d1, m) == true
    ensures Improved(ls, buf[from..], min0, pair0, min_d, pair) == true && min_d <= m && RootOf(d, min_d) == true
    ensures ClearOf(p, buf[right..], min_d)
  {
    hide Dist, Improved, RootOf, IsRoot, ClearOf;
    var x1 := p.y - d1;
    min_d, pair, d := m, pair1, d1;
    var i := right;
    while i < buf.Length && buf[i].y > x1
      invariant right <= i <= buf.Length && RootOf(d, min_d) && min_d <= m
      invariant Improved(ls, buf[from..], min0, pair0, min_d, pair)
      invariant forall l :: right <= l < i ==> min_d <= Dist(p, buf[l])
    {
      var x := Dist(p, buf[i]);
      if x < min_d {
        assert buf[from..][i - from] == buf[i];
        ImproveBy(ls, buf[from..], min0, pair0, min_d, pair, p, buf[i]);
        min_d := x;
        RootTaken(sqrt, min_d);
        d := sqrt(min_d);
        pair := Some((p, buf[i]));
      }
      i := i + 1;
    }
    forall l | i <= l < buf.Length ensures buf[l].y <= x1 {
      assert buf[i].y >= buf[l].y;
    }
    RestIsFar(buf[right..], i - right, p, d1, m, min_d);
  }

  /** Points too far below p, after points already compared with it. */
  lemma RestIsFar(rs: seq<Point>, c: nat, p: Point, d: real, m: real, n: real)
    requires c <= |rs| && RootOf(d, m) && n <= m
    requires forall k :: 0 <= k < c ==> n <= Dist(p, rs[k])
    requires forall k :: c <= k < |rs| ==> rs[k].y <= p.y - d
    ensures ClearOf(p, rs, n)
  {
    hide Dist;
    forall k | c <= k < |rs| ensures n <= Dist(p, rs[k]) {
      FarInOneCoordinate(p, rs[k], d);
    }
  }

  /** One left point has been compared with everything that can be near it. */
  lemma OneMoreCleared(ls: seq<Point>, left: nat, seen: seq<Point>, rest: seq<Point>, m: real, n: real)
    requires left < |ls| && n <= m && ClearOf(ls[left], rest, n)
    requires forall k :: left < k < |ls| ==> ClearOf(ls[k], seen + rest, m)
    requires forall k :: 0 <= k <= left ==> ClearOf(ls[k], seen, m)
    ensures forall k :: left <= k < |ls| ==> ClearOf(ls[k], seen + rest, n)
    ensures forall k :: 0 <= k < left ==> ClearOf(ls[k], seen, n)
  {
    hide Dist;
  }

  /** A right point more than d above p, with d the root of m. */
  lemma ClearAbove(p: Point, ps: seq<Point>, q: Point, d: real, m: real)
    requires ClearOf(p, ps, m) && RootOf(d, m) && q.y > p.y + d
    ensures ClearOf(p, ps + [q], m)
  {
    hide Dist;
    FarInOneCoordinate(p, q, d);
  }

  /** Moves the cursor past the right points too far above every remaining left point. */
  method MoveCursor(buf: array<Point>, ghost ls: seq<Point>, left: nat, right0: nat, right1: nat, d: real, min_d: real)
    returns (right: nat)
    requires left < |ls| <= right0 <= right1 <= buf.Length && RootOf(d, min_d) == true
    requires buf[left] == ls[left] && SortedByY(ls)
    requires forall k :: 0 <= k <= left ==> ClearOf(ls[k], buf[right0..right1], min_d)
    ensures right1 <= right <= buf.Length
    ensures forall k :: 0 <= k <= left ==> ClearOf(ls[k], buf[right0..right], min_d)
  {
    hide Dist, ClearOf, RootOf;
    right := right1;
    var x0 := buf[left].y + d;
    while right < buf.Length && buf[right].y > x0
      invariant right1 <= right <= buf.Length
      invariant forall k :: 0 <= k <= left ==> ClearOf(ls[k], buf[right0..right], min_d)
    {
      assert buf[right0..right + 1] == buf[right0..right] + [buf[right]];
      forall k | 0 <= k <= left ensures ClearOf(ls[k], buf[right0..right + 1], min_d) {
        ClearAbove(ls[k], buf[right0..right], buf[right], d, min_d);
      }
      right := right + 1;
    }
  }

  /** Compares every left point with the right points near it: the left points from the top down, the right points from
      a cursor that only moves on. */
  method ScanStrip(buf: array<Point>, left0: int, right0: int, min0: real, pair0: Option<(Point, Point)>,
                   sqrt: real -> real)
    returns (min_d: real, pair: Option<(Point, Point)>)
    requires IsRoot(sqrt) && min0 >= 0.0 && -1 <= left0 < right0 <= buf.Length && SortedByY(buf[..left0 + 1])
    requires forall k, l :: right0 <= k < l < buf.Length ==> buf[k].y >= buf[l].y
    ensures Improved(buf[..left0 + 1], buf[right0..], min0, pair0, min_d, pair)
    ensures forall p :: p in buf[..left0 + 1] ==> ClearOf(p, buf[right0..], min_d)
  {
    var ny := buf.Length;
    ghost var ls, rs := buf[..left0 + 1], buf[right0..];
    var left, right := left0, right0;
    min_d, pair := min0, pair0;
    RootTaken(sqrt, min_d);
    var d := sqrt(min_d);
    assert Improved(ls, rs, min0, pair0, min_d, pair);
    assert forall k :: 0 <= k <= left ==> ClearOf(ls[k], [], min_d);
    hide *;
    assert buf[right0..right] == [];
    while left >= 0
      invariant -1 <= left <= left0 && right0 <= right <= ny && RootOf(d, min_d)
      invariant Improved(ls, rs, min0, pair0, min_d, pair)
      invariant forall k :: left < k < |ls| ==> ClearOf(ls[k], rs, min_d)
      invariant forall k :: 0 <= k <= left ==> ClearOf(ls[k], buf[right0..right], min_d)
    {
      right := MoveCursor(buf, ls, left, right0, right, d, min_d);
      ghost var m, seen, rest := min_d, buf[right0..right], buf[right..];
      SeenAndRest(buf[..], right0, right);
      if right >= ny {
        return;
      }
      min_d, pair, d := ScanRight(buf, buf[left], right0, right, ls, min0, pair0, min_d, pair, d, sqrt);
      OneMoreCleared(ls, left, seen, rest, m, min_d);
      left := left - 1;
    }
  }

  lemma SeenAndRest(s: seq<Point>, lo: nat, hi: nat)
    requires lo <= hi <= |s|
    ensures s[lo..] == s[lo..hi] + s[hi..] && (hi == |s| ==> s[lo..hi] == s[lo..])
  {}

  // ---- divide and conquer

  lemma InKeep(ps: seq<Point>, mid: real, left: bool, d: Option<real>, p: Point)
    ensures p in Keep(ps, mid, left, d) <==> p in ps && Selected(p, mid, left, d)
  {
    hide *;
    KeepMultiset(ps, mid, left, d, p);
    assert p in multiset(ps) <==> p in ps;
    assert p in multiset(Keep(ps, mid, left, d)) <==> p in Keep(ps, mid, left, d);
  }

  lemma SameMembers(ps: seq<Point>, qs: seq<Point>, p: Point)
    requires SamePoints(ps, qs)
    ensures p in ps <==> p in qs
  {
    assert p in multiset(ps) <==> p in ps;
  }

  /** A pair across the line is either too far from the line or in the strip. */
  lemma CrossPair(sy: seq<Point>, mid: real, d: real, m0: real, m: real, p: Point, q: Point)
    requires p in sy && q in sy && p.x < mid <= q.x
    requires RootOf(d, m0) && m <= m0
    requires forall l :: l in Keep(sy, mid, true, Some(d)) ==> ClearOf(l, Reversed(Keep(sy, mid, false, Some(d))), m)
    ensures m <= Dist(p, q)
  {
    hide Keep, Reversed, Dist;
    InKeep(sy, mid, true, Some(d), p);
    InKeep(sy, mid, false, Some(d), q);
    ReversedMembers(Keep(sy, mid, false, Some(d)), q);
    FarInOneCoordinate(p, q, d);
  }

  /**
  The pairs the search takes into account: those within a short list sorted by x, and those that the list sorted by y
  has on different sides of the line at a cut. The two lists are cut apart: the first by position, the second by x.
   */
  ghost predicate Considers(sx: seq<Point>, sy: seq<Point>, p: Point, q: Point)
    decreases |sx|
  {
    if |sx| <= 8 then PairOf(sx, p, q)
    else
      var h := |sx| / 2;
      var mid := sx[h].x;
      || Considers(sx[..h], Keep(sy, mid, true, None), p, q)
      || Considers(sx[h..], Keep(sy, mid, false, None), p, q)
      || (p in sy && q in sy && p.x < mid <= q.x)
  }

  /** m is the least squared distance of the pairs taken into account, or limit if none is closer than limit. */
  ghost predicate IsBest(sx: seq<Point>, sy: seq<Point>, limit: real, m: real, pair: Option<(Point, Point)>) {
    && (forall p, q :: Considers(sx, sy, p, q) ==> m <= Dist(p, q))
    && m <= limit && (pair.None? ==> m == limit)
    && (pair.Some? ==>
          m < limit && Dist(pair.value.0, pair.value.1) == m && Considers(sx, sy, pair.value.0, pair.value.1))
  }

  lemma ShortList(sx: seq<Point>, sy: seq<Point>, limit: real, m: real, pair: Option<(Point, Point)>)
    requires |sx| <= 8 && IsClosest(sx, limit, m, pair)
    ensures IsBest(sx, sy, limit, m, pair)
  {
    forall p, q | Considers(sx, sy, p, q) ensures m <= Dist(p, q) {
      PairMoves(sx, sx, p, q);
    }
  }

  /** The better answer of the two halves, completed by the strip, is the answer. */
  lemma Combine(sx: seq<Point>, sy: seq<Point>, limit: real, ml: real, pl: Option<(Point, Point)>,
                mr: real, pr: Option<(Point, Point)>, d: real, m: real, pair: Option<(Point, Point)>)
    requires |sx| > 8 && limit >= 0.0
    requires var h := |sx| / 2; var mid := sx[h].x;
      && IsBest(sx[..h], Keep(sy, mid, true, None), limit, ml, pl)
      && IsBest(sx[h..], Keep(sy, mid, false, None), limit, mr, pr)
    requires var m0, pair0 := if mr < ml then mr else ml, if mr < ml then pr else pl;
      var ls, rs := Keep(sy, sx[|sx| / 2].x, true, Some(d)), Reversed(Keep(sy, sx[|sx| / 2].x, false, Some(d)));
      && RootOf(d, m0) == true && m <= m0 && Improved(ls, rs, m0, pair0, m, pair)
      && forall l :: l in ls ==> ClearOf(l, rs, m)
    ensures IsBest(sx, sy, limit, m, pair)
  {
    hide Keep, Reversed, Dist, ClearOf, PairOf, RootOf;
    var h := |sx| / 2;
    var mid := sx[h].x;
    forall p, q | Considers(sx, sy, p, q) ensures m <= Dist(p, q) {
      if p in sy && q in sy && p.x < mid <= q.x {
        CrossPair(sy, mid, d, if mr < ml then mr else ml, m, p, q);
      }
    }
    if m < (if mr < ml then mr else ml) {
      var p, q := pair.value.0, pair.value.1;
      ReversedMembers(Keep(sy, mid, false, Some(d)), q);
      InKeep(sy, mid, true, Some(d), p);
      InKeep(sy, mid, false, Some(d), q);
    }
  }

  /** Splits the list sorted by y at the line; each part is still sorted by y. */
  method Split(sy: seq<Point>, mid: real, buf: array<Point>) returns (cut: nat)
    requires buf.Length == |sy| && SortedByY(sy)
    modifies buf
    ensures cut <= |sy| && buf[..cut] == Keep(sy, mid, true, None) && buf[cut..] == Keep(sy, mid, false, None)
    ensures SortedByY(buf[..cut]) && SortedByY(buf[cut..])
  {
    KeepSorted(sy, mid, true, None);
    KeepSorted(sy, mid, false, None);
    hide *;
    var left, right := Fill(sy, mid, None, buf);
    cut := right;
    ReverseTail(buf, cut);
    ReversedTwice(Keep(sy, mid, false, None));
  }

  /** Fills the buffer with the strip and scans it. */
  method Strip(sy: seq<Point>, mid: real, min0: real, pair0: Option<(Point, Point)>, buf: array<Point>,
               sqrt: real -> real)
    returns (min_d: real, pair: Option<(Point, Point)>, ghost d: real)
    requires IsRoot(sqrt) && buf.Length == |sy| && SortedByY(sy) && min0 >= 0.0
    modifies buf
    ensures RootOf(d, min0) == true && min_d <= min0
    ensures var ls, rs := Keep(sy, mid, true, Some(d)), Reversed(Keep(sy, mid, false, Some(d)));
      Improved(ls, rs, min0, pair0, min_d, pair) && forall l :: l in ls ==> ClearOf(l, rs, min_d)
  {
    hide Keep, Reversed, ClearOf, SortedByY, IsRoot, RootOf, Dist;
    RootTaken(sqrt, min0);
    var root := sqrt(min0);
    d := root;
    var left, right := Fill(sy, mid, Some(root), buf);
    StripSorted(sy, mid, root, buf, left, right);
    min_d, pair := ScanStrip(buf, left, right, min0, pair0, sqrt);
  }

  lemma StripSorted(sy: seq<Point>, mid: real, d: real, buf: array<Point>, left: int, right: int)
    requires SortedByY(sy) && -1 <= left < right <= buf.Length
    requires buf[..left + 1] == Keep(sy, mid, true, Some(d)) && buf[right..] == Reversed(Keep(sy, mid, false, Some(d)))
    ensures SortedByY(buf[..left + 1])
    ensures forall k, l :: right <= k < l < buf.Length ==> buf[k].y >= buf[l].y
  {
    hide Keep, Reversed;
    var back := Keep(sy, mid, false, Some(d));
    KeepSorted(sy, mid, true, Some(d));
    KeepSorted(sy, mid, false, Some(d));
    forall k, l | right <= k < l < buf.Length ensures buf[k].y >= buf[l].y {
      ReversedAt(back, k - right);
      ReversedAt(back, l - right);
      assert buf[right..][k - right] == buf[k] && buf[right..][l - right] == buf[l];
    }
  }

  /**
  Divide and conquer over any two lists of which the second is sorted by y. Given the same points, the first sorted by x
  and with distinct x at every cut, it finds the minimum the brute force finds.
   */
  method Closest(sx: seq<Point>, sy: seq<Point>, limit: real, sqrt: real -> real)
    returns (min_d: real, pair: Option<(Point, Point)>)
    requires IsRoot(sqrt) && limit >= 0.0 && SortedByY(sy)
    ensures IsBest(sx, sy, limit, min_d, pair) == true && min_d >= 0.0
    ensures SortedByX(sx) && SamePoints(sx, sy) && CleanCuts(sx) ==> IsClosest(sx, limit, min_d, pair)
    decreases |sx|
  {
    if |sx| <= 8 {
      min_d, pair := BruteForce(sx, limit);
      ShortList(sx, sy, limit, min_d, pair);
    } else {
      min_d, pair := Conquer(sx, sy, limit, sqrt);
    }
    BestNonNegative(sx, sy, limit, min_d, pair);
    if SortedByX(sx) && SamePoints(sx, sy) && CleanCuts(sx) {
      CleanBestIsClosest(sx, sy, limit, min_d, pair);
    }
  }

  method Conquer(sx: seq<Point>, sy: seq<Point>, limit: real, sqrt: real -> real)
    returns (min_d: real, pair: Option<(Point, Point)>)
    requires IsRoot(sqrt) && limit >= 0.0 && SortedByY(sy) && |sx| > 8
    ensures IsBest(sx, sy, limit, min_d, pair) == true
    decreases |sx|, 0
  {
    hide Keep, Reversed, Dist, ClearOf, Improved, SortedByX, SortedByY, IsBest, CleanCuts, SamePoints, IsRoot, RootOf,
      Considers, IsClosest;
    var h := |sx| / 2;
    var mid := sx[h].x;
    var buf := new Point[|sy|](_ => Point(0.0, 0.0));
    var cut := Split(sy, mid, buf);
    min_d, pair := Closest(sx[..h], buf[..cut], limit, sqrt);
    var d, pair1 := Closest(sx[h..], buf[cut..], limit, sqrt);
    ghost var ml, pl, e := min_d, pair, 0.0;
    if d < min_d { min_d, pair := d, pair1; }
    min_d, pair, e := Strip(sy, mid, min_d, pair, buf, sqrt);
    Combine(sx, sy, limit, ml, pl, d, pair1, e, min_d, pair);
  }

  lemma BestNonNegative(sx: seq<Point>, sy: seq<Point>, limit: real, m: real, pair: Option<(Point, Point)>)
    requires IsBest(sx, sy, limit, m, pair) && limit >= 0.0
    ensures m >= 0.0
  {
    hide Dist, Considers;
    if pair.Some? { DistNonNegative(pair.value.0, pair.value.1); }
  }

  // ---- when the pairs taken into account are enough

  /** With clean cuts every pair is taken into account. */
  lemma {:induction false} CleanConsidersAll(sx: seq<Point>, sy: seq<Point>, i: nat, j: nat)
    requires SortedByX(sx) && SamePoints(sx, sy) && CleanCuts(sx) && i < j < |sx|
    ensures Considers(sx, sy, sx[i], sx[j])
    decreases |sx|
  {
    if |sx| <= 8 {
      hide CleanCuts, SamePoints, SortedByX;
    } else {
      hide *;
      var h := |sx| / 2;
      var l, r, ly, ry := sx[..h], sx[h..], Keep(sy, sx[h].x, true, None), Keep(sy, sx[h].x, false, None);
      CleanHalves(sx, sy);
      if j < h {
        CleanConsidersAll(l, ly, i, j);
      } else if i >= h {
        CleanConsidersAll(r, ry, i - h, j - h);
      } else {
        AcrossCut(sx, sy, i, j);
      }
      ConsidersHalf(sx, sy, sx[i], sx[j]);
    }
  }

  /** A clean cut makes two smaller problems of the same kind. */
  lemma CleanHalves(sx: seq<Point>, sy: seq<Point>)
    requires SortedByX(sx) && SamePoints(sx, sy) && CleanCuts(sx) && |sx| > 8
    ensures var h := |sx| / 2;
      && SortedByX(sx[..h]) && SamePoints(sx[..h], Keep(sy, sx[h].x, true, None)) && CleanCuts(sx[..h])
      && SortedByX(sx[h..]) && SamePoints(sx[h..], Keep(sy, sx[h].x, false, None)) && CleanCuts(sx[h..])
      && sx[h - 1].x < sx[h].x
  {
    hide Keep, SamePoints;
    HalvesSorted(sx, |sx| / 2);
    HalvesBySide(sx, sy, |sx| / 2);
  }

  lemma HalvesSorted(sx: seq<Point>, h: nat)
    requires SortedByX(sx) && h <= |sx|
    ensures SortedByX(sx[..h]) && SortedByX(sx[h..])
  {}

  lemma AcrossCut(sx: seq<Point>, sy: seq<Point>, i: nat, j: nat)
    requires SortedByX(sx) && SamePoints(sx, sy) && i < |sx| / 2 <= j < |sx| && sx[|sx| / 2 - 1].x < sx[|sx| / 2].x
    ensures sx[i] in sy && sx[j] in sy && sx[i].x < sx[|sx| / 2].x <= sx[j].x
  {
    SameMembers(sx, sy, sx[i]);
    SameMembers(sx, sy, sx[j]);
  }

  lemma ConsidersHalf(sx: seq<Point>, sy: seq<Point>, p: Point, q: Point)
    requires |sx| > 8
    requires var h := |sx| / 2;
      || Considers(sx[..h], Keep(sy, sx[h].x, true, None), p, q) == true
      || Considers(sx[h..], Keep(sy, sx[h].x, false, None), p, q) == true
      || (p in sy && q in sy && p.x < sx[h].x <= q.x)
    ensures Considers(sx, sy, p, q)
  {
    hide Keep;
  }

  /** Only pairs of points that are there are taken into account. */
  lemma {:induction false} ConsideredIsPair(ps: seq<Point>, sx: seq<Point>, sy: seq<Point>, p: Point, q: Point)
    requires Considers(sx, sy, p, q) && multiset(sx) <= multiset(ps) && multiset(sy) <= multiset(ps)
    ensures PairOf(ps, p, q)
    decreases |sx|
  {
    if |sx| <= 8 {
      var i, j :| 0 <= i < |sx| && 0 <= j < |sx| && i != j && sx[i] == p && sx[j] == q;
      TwoPositions(sx, i, j);
      var k, l := FindTwo(ps, p, q);
    } else {
      var h := |sx| / 2;
      var mid := sx[h].x;
      assert sx == sx[..h] + sx[h..];
      KeepPart(sy, mid, true);
      KeepPart(sy, mid, false);
      if Considers(sx[..h], Keep(sy, mid, true, None), p, q) {
        ConsideredIsPair(ps, sx[..h], Keep(sy, mid, true, None), p, q);
      } else if Considers(sx[h..], Keep(sy, mid, false, None), p, q) {
        ConsideredIsPair(ps, sx[h..], Keep(sy, mid, false, None), p, q);
      } else {
        assert p in multiset(sy) && q in multiset(sy);
        assert p in ps && q in ps;
        var i, j :| 0 <= i < |ps| && 0 <= j < |ps| && ps[i] == p && ps[j] == q;
      }
    }
  }

  lemma KeepPart(ps: seq<Point>, mid: real, left: bool)
    ensures multiset(Keep(ps, mid, left, None)) <= multiset(ps)
  {
    forall p ensures multiset(Keep(ps, mid, left, None))[p] <= multiset(ps)[p] {
      KeepMultiset(ps, mid, left, None, p);
    }
  }

  /**
  Ties or not, the answer is the distance of a pair that is there, or the limit: it may be too large, never too small.
   */
  lemma BestIsAttained(sx: seq<Point>, sy: seq<Point>, limit: real, m: real, pair: Option<(Point, Point)>)
    requires SamePoints(sx, sy) && IsBest(sx, sy, limit, m, pair)
    ensures Attained(sx, limit, m, pair)
  {
    hide Considers, Dist, PairOf;
    if pair.Some? { ConsideredIsPair(sx, sx, sy, pair.value.0, pair.value.1); }
  }

  lemma CleanBestIsClosest(sx: seq<Point>, sy: seq<Point>, limit: real, m: real, pair: Option<(Point, Point)>)
    requires SortedByX(sx) && SamePoints(sx, sy) && CleanCuts(sx) && IsBest(sx, sy, limit, m, pair)
    ensures IsClosest(sx, limit, m, pair)
  {
    hide Considers, CleanCuts, Dist, PairOf, Attained;
    BestIsAttained(sx, sy, limit, m, pair);
    forall i, j | 0 <= i < j < |sx| ensures m <= Dist(sx[i], sx[j]) {
      CleanConsidersAll(sx, sy, i, j);
    }
  }

  // ---- clean cuts are necessary

  /** In a list of n points sorted by x, some cut is between positions i and i + 1. */
  predicate CutBehind(n: nat, i: nat) {
    && n > 8
    && (i + 1 == n / 2 || (i + 1 < n / 2 && CutBehind(n / 2, i)) || (i >= n / 2 && CutBehind(n - n / 2, i - n / 2)))
  }

  lemma NextByX(sx: seq<Point>, i: nat)
    requires SortedByX(sx) && i + 1 < |sx|
    ensures sx[i].x <= sx[i + 1].x
  {}

  /** Cuts that are not clean have the same x on both sides of one of them. */
  lemma {:induction false} TiedCut(sx: seq<Point>) returns (i: nat)
    requires SortedByX(sx) && !CleanCuts(sx)
    ensures i + 1 < |sx| && CutBehind(|sx|, i) && sx[i].x == sx[i + 1].x
    decreases |sx|
  {
    hide *;
    var h := |sx| / 2;
    var l, r := sx[..h], sx[h..];
    HalvesSorted(sx, h);
    CleanHere(sx);
    if sx[h - 1].x >= sx[h].x {
      i := h - 1;
      NextByX(sx, i);
    } else if !CleanCuts(l) {
      i := TiedCut(l);
      assert l[i] == sx[i] && l[i + 1] == sx[i + 1];
    } else {
      var k := TiedCut(r);
      i := h + k;
      assert r[k] == sx[i] && r[k + 1] == sx[i + 1];
    }
    CutWhere(|sx|, i);
  }

  lemma CleanHere(ps: seq<Point>)
    requires !CleanCuts(ps)
    ensures var h := |ps| / 2;
      |ps| > 8 && (ps[h - 1].x >= ps[h].x || !CleanCuts(ps[..h]) || !CleanCuts(ps[h..]))
  {}

  /** A pair with the same x is taken into account only within the list sorted by x. */
  lemma {:induction false} TiedOnlyInFirst(sx: seq<Point>, sy: seq<Point>, p: Point, q: Point)
    requires p.x == q.x && Considers(sx, sy, p, q)
    ensures p in sx && q in sx
    decreases |sx|
  {
    if |sx| > 8 {
      hide *;
      var h := |sx| / 2;
      var mid := sx[h].x;
      TiedInHalf(sx, sy, p, q);
      if Considers(sx[..h], Keep(sy, mid, true, None), p, q) {
        TiedOnlyInFirst(sx[..h], Keep(sy, mid, true, None), p, q);
      } else {
        TiedOnlyInFirst(sx[h..], Keep(sy, mid, false, None), p, q);
      }
    }
  }

  /** No line of a cut lies between two points of one x. */
  lemma TiedInHalf(sx: seq<Point>, sy: seq<Point>, p: Point, q: Point)
    requires |sx| > 8 && p.x == q.x && Considers(sx, sy, p, q)
    ensures var h := |sx| / 2;
      || Considers(sx[..h], Keep(sy, sx[h].x, true, None), p, q)
      || Considers(sx[h..], Keep(sy, sx[h].x, false, None), p, q)
  {
    hide Keep, PairOf;
  }

  lemma NotInOtherHalf(sx: seq<Point>, h: nat, i: nat)
    requires Distinct(sx) && i < |sx| && h <= |sx|
    ensures i < h ==> sx[i] !in sx[h..]
    ensures i >= h ==> sx[i] !in sx[..h]
  {}

  /** Two points with the same x on both sides of a cut are never compared. */
  lemma {:induction false} TiedMissed(sx: seq<Point>, sy: seq<Point>, i: nat, p: Point, q: Point)
    requires i + 1 < |sx| && CutBehind(|sx|, i) && sx[i].x == sx[i + 1].x && Distinct(sx)
    requires (p == sx[i] && q == sx[i + 1]) || (p == sx[i + 1] && q == sx[i])
    ensures !Considers(sx, sy, p, q)
    decreases |sx|
  {
    hide *;
    var h := |sx| / 2;
    var l, r, ly, ry := sx[..h], sx[h..], Keep(sy, sx[h].x, true, None), Keep(sy, sx[h].x, false, None);
    if Considers(sx, sy, p, q) {
      CutWhere(|sx|, i);
      TiedInHalf(sx, sy, p, q);
      NotInOtherHalf(sx, h, i);
      NotInOtherHalf(sx, h, i + 1);
      if Considers(l, ly, p, q) {
        TiedOnlyInFirst(l, ly, p, q);
        DistinctSlice(sx, 0, h);
        TiedMissed(l, ly, i, p, q);
      } else {
        TiedOnlyInFirst(r, ry, p, q);
        DistinctSlice(sx, h, |sx|);
        assert sx[h..|sx|] == r;
        TiedMissed(r, ry, i - h, p, q);
      }
    }
  }

  lemma CutWhere(n: nat, i: nat)
    ensures var h := n / 2;
      CutBehind(n, i) <==>
      n > 8 && (i + 1 == h || (i + 1 < h && CutBehind(h, i)) || (i >= h && CutBehind(n - h, i - h)))
  {}

  lemma DistinctSlice(s: seq<Point>, lo: nat, hi: nat)
    requires lo <= hi <= |s| && Distinct(s)
    ensures Distinct(s[lo..hi])
  {}

  ghost predicate SameX(ps: seq<Point>, sx: seq<Point>) {
    |ps| == |sx| && forall k :: 0 <= k < |sx| ==> ps[k].x == sx[k].x
  }

  /** Heights for the points of a list: 0 and 1 at positions i and i + 1, elsewhere 4, 6, 8 and so on. */
  function Spaced(sx: seq<Point>, i: nat): (ps: seq<Point>)
    ensures SameX(ps, sx)
  {
    seq(|sx|, k requires 0 <= k < |sx| =>
      Point(sx[k].x, if k == i then 0.0 else if k == i + 1 then 1.0 else (4 + 2 * k) as real))
  }

  lemma SpacedApart(sx: seq<Point>, i: nat, j: nat, k: nat)
    requires j < |sx| && k < |sx| && j != k && !(j == i && k == i + 1) && !(j == i + 1 && k == i)
    ensures Spaced(sx, i)[j] != Spaced(sx, i)[k] && Dist(Spaced(sx, i)[j], Spaced(sx, i)[k]) >= 4.0
  {
    FarInOneCoordinate(Spaced(sx, i)[j], Spaced(sx, i)[k], 2.0);
  }

  lemma SpacedDistinct(sx: seq<Point>, i: nat)
    requires i + 1 < |sx|
    ensures Distinct(Spaced(sx, i))
  {
    var ps := Spaced(sx, i);
    forall j, k | 0 <= j < k < |ps| ensures ps[j] != ps[k] {
      if j != i || k != i + 1 { SpacedApart(sx, i, j, k); }
    }
  }

  /**
  Wherever a cut is not clean, there are heights for the points with which the search fails: two points are one apart,
  and everything it takes into account is two apart or more.
   */
  lemma UncleanMisses(sx: seq<Point>) returns (ps: seq<Point>, i: nat)
    requires SortedByX(sx) && !CleanCuts(sx)
    ensures SameX(ps, sx) && i + 1 < |ps| && Dist(ps[i], ps[i + 1]) == 1.0 && ps == Spaced(sx, i)
    ensures forall sy, p, q :: SamePoints(ps, sy) && Considers(ps, sy, p, q) ==> Dist(p, q) >= 4.0
  {
    hide Considers, SamePoints, CleanCuts, SortedByX, CutBehind;
    i := TiedCut(sx);
    ps := Spaced(sx, i);
    SpacedDistinct(sx, i);
    forall sy, p, q | SamePoints(ps, sy) && Considers(ps, sy, p, q) ensures Dist(p, q) >= 4.0 {
      ConsideredSpaced(sx, i, sy, p, q);
    }
  }

  lemma ConsideredSpaced(sx: seq<Point>, i: nat, sy: seq<Point>, p: Point, q: Point)
    requires i + 1 < |sx| && CutBehind(|sx|, i) && sx[i].x == sx[i + 1].x && Distinct(Spaced(sx, i))
    requires SamePoints(Spaced(sx, i), sy) && Considers(Spaced(sx, i), sy, p, q)
    ensures Dist(p, q) >= 4.0
  {
    hide Considers, Dist, Distinct;
    var ps := Spaced(sx, i);
    ConsideredIsPair(ps, ps, sy, p, q);
    var j, k :| 0 <= j < |ps| && 0 <= k < |ps| && j != k && ps[j] == p && ps[k] == q;
    if (j == i && k == i + 1) || (j == i + 1 && k == i) {
      TiedMissed(ps, sy, i, p, q);
    } else {
      SpacedApart(sx, i, j, k);
    }
  }

  lemma {:induction false} CleanByX(ps: seq<Point>, sx: seq<Point>)
    requires SameX(ps, sx)
    ensures CleanCuts(ps) <==> CleanCuts(sx)
    decreases |sx|
  {
    if |sx| > 8 {
      var h := |sx| / 2;
      CleanByX(ps[..h], sx[..h]);
      CleanByX(ps[h..], sx[h..]);
    }
  }

  /** With the x of sx, whatever the heights, the search finds what the brute force finds. */
  ghost predicate RightForAllHeights(sx: seq<Point>, limit: real) {
    forall ps, sy, m, pair ::
      SameX(ps, sx) && SortedByY(sy) && SamePoints(ps, sy) && IsBest(ps, sy, limit, m, pair) ==>
        IsClosest(ps, limit, m, pair)
  }

  /** The points with those heights, in the order of their heights. */
  lemma SpacedByHeight(sx: seq<Point>, i: nat) returns (sy: seq<Point>)
    requires i + 1 < |sx|
    ensures SortedByY(sy) && SamePoints(Spaced(sx, i), sy)
  {
    var ps := Spaced(sx, i);
    sy := ps[i..i + 2] + (ps[..i] + ps[i + 2..]);
    MiddleFirst(ps, i, i + 2);
    forall j, k | 0 <= j < k < |sy| ensures sy[j].y <= sy[k].y {
      var a := if j < 2 then i + j else if j < i + 2 then j - 2 else j;
      var b := if k < 2 then i + k else if k < i + 2 then k - 2 else k;
      assert sy[j] == ps[a] && sy[k] == ps[b];
    }
  }

  lemma MiddleFirst(ps: seq<Point>, lo: nat, hi: nat)
    requires lo <= hi <= |ps|
    ensures SamePoints(ps, ps[lo..hi] + (ps[..lo] + ps[hi..]))
  {
    assert ps == ps[..lo] + ps[lo..hi] + ps[hi..];
  }

  /**
  The search is right for all heights of the points if and only if the cuts are clean. The bound on the limit only
  admits the pair at distance 1 that an unclean cut can hide; the first call's limit is the largest double.
   */
  lemma ClosestExactly(sx: seq<Point>, limit: real)
    requires SortedByX(sx) && limit > 1.0
    ensures CleanCuts(sx) <==> RightForAllHeights(sx, limit)
  {
    hide IsBest, Considers, CleanCuts, SamePoints, IsClosest;
    if CleanCuts(sx) {
      forall ps, sy, m, pair | SameX(ps, sx) && SamePoints(ps, sy) && IsBest(ps, sy, limit, m, pair)
        ensures IsClosest(ps, limit, m, pair)
      {
        CleanByX(ps, sx);
        CleanBestIsClosest(ps, sy, limit, m, pair);
      }
    } else {
      var ps, i := UncleanMisses(sx);
      var sy := SpacedByHeight(sx, i);
      var m, pair := BestExists(ps, sy, limit);
      FarIsWrong(ps, i, sy, limit, m, pair);
    }
  }

  lemma FarIsWrong(ps: seq<Point>, i: nat, sy: seq<Point>, limit: real, m: real, pair: Option<(Point, Point)>)
    requires i + 1 < |ps| && Dist(ps[i], ps[i + 1]) < limit && Dist(ps[i], ps[i + 1]) < 4.0
    requires forall p, q :: Considers(ps, sy, p, q) ==> Dist(p, q) >= 4.0
    requires IsBest(ps, sy, limit, m, pair)
    ensures !IsClosest(ps, limit, m, pair)
  {
    hide Considers, Dist;
    assert m > Dist(ps[i], ps[i + 1]);
  }

  /** Some answer is best: the pairs taken into account are finitely many. */
  lemma BestExists(sx: seq<Point>, sy: seq<Point>, limit: real) returns (m: real, pair: Option<(Point, Point)>)
    requires SamePoints(sx, sy)
    ensures IsBest(sx, sy, limit, m, pair)
  {
    hide Considers, Dist, PairOf;
    var pairs := set p, q | p in sx && q in sx && Considers(sx, sy, p, q) :: (p, q);
    m, pair := LeastOf(pairs, limit);
    forall p, q | Considers(sx, sy, p, q) ensures m <= Dist(p, q) {
      ConsideredInside(sx, sy, p, q);
      assert (p, q) in pairs;
    }
  }

  lemma ConsideredInside(sx: seq<Point>, sy: seq<Point>, p: Point, q: Point)
    requires SamePoints(sx, sy) && Considers(sx, sy, p, q)
    ensures p in sx && q in sx
  {
    hide Considers;
    ConsideredIsPair(sx, sx, sy, p, q);
  }

  lemma {:induction false} LeastOf(pairs: set<(Point, Point)>, limit: real)
    returns (m: real, pair: Option<(Point, Point)>)
    ensures m <= limit && (pair.None? ==> m == limit)
    ensures pair.Some? ==> m < limit && pair.value in pairs && Dist(pair.value.0, pair.value.1) == m
    ensures forall v :: v in pairs ==> m <= Dist(v.0, v.1)
    decreases pairs
  {
    hide Dist;
    m, pair := limit, None;
    if pairs != {} {
      var v :| v in pairs;
      m, pair := LeastOf(pairs - {v}, limit);
      if Dist(v.0, v.1) < m {
        m, pair := Dist(v.0, v.1), Some(v);
      }
    }
  }

  /** Nine points on a line, ten apart, except that the fifth stands one above the fourth. */
  function NinePoints(): (ps: seq<Point>)
    ensures |ps| == 9 && SortedByX(ps)
  {
    seq(9, k requires 0 <= k < 9 =>
      Point((10 * if k <= 3 then k else k - 1) as real, if k == 4 then 1.0 else 0.0))
  }

  lemma TensApart(a: int, b: int, u: Point, v: Point)
    requires a != b && u.x == (10 * a) as real && v.x == (10 * b) as real
    ensures Dist(u, v) >= 100.0
  {
    FarInOneCoordinate(u, v, 10.0);
  }

  /**
  A tie at the cut: the closest two points are on both sides of it by position but on one side by x, and the search
  misses them. Every pair it takes into account is ten apart or more.
   */
  lemma TieAtCutMissed()
    ensures var ps := NinePoints();
      && ps[3] != ps[4] && Dist(ps[3], ps[4]) == 1.0
      && forall sy, p, q :: SamePoints(ps, sy) && Considers(ps, sy, p, q) ==> Dist(p, q) >= 100.0
  {
    var ps := NinePoints();
    forall sy, p, q | SamePoints(ps, sy) && Considers(ps, sy, p, q) ensures Dist(p, q) >= 100.0 {
      NineConsidered(sy, p, q);
    }
  }

  lemma NineConsidered(sy: seq<Point>, p: Point, q: Point)
    requires SamePoints(NinePoints(), sy) && Considers(NinePoints(), sy, p, q)
    ensures Dist(p, q) >= 100.0
  {
    var ps := NinePoints();
    var i, j := TwoOfNine(sy, p, q);
    TensApart(if i <= 3 then i else i - 1, if j <= 3 then j else j - 1, p, q);
  }

  /** The positions of a pair taken into account are not the fourth and the fifth. */
  lemma TwoOfNine(sy: seq<Point>, p: Point, q: Point) returns (i: nat, j: nat)
    requires SamePoints(NinePoints(), sy) == true && Considers(NinePoints(), sy, p, q) == true
    ensures i < 9 && j < 9 && i != j && NinePoints()[i] == p && NinePoints()[j] == q
    ensures !(i == 3 && j == 4) && !(i == 4 && j == 3)
  {
    hide Keep, Considers, NinePoints, SamePoints, SortedByX;
    var ps := NinePoints();
    OneCut(ps, sy, p, q);
    assert |ps| / 2 == 4;
    var l, r := ps[..4], ps[4..];
    if PairOf(l, p, q) {
      i, j :| 0 <= i < |l| && 0 <= j < |l| && i != j && l[i] == p && l[j] == q;
    } else if PairOf(r, p, q) {
      var i', j' :| 0 <= i' < |r| && 0 <= j' < |r| && i' != j' && r[i'] == p && r[j'] == q;
      i, j := i' + 4, j' + 4;
    } else {
      SameMembers(ps, sy, p);
      SameMembers(ps, sy, q);
      i, j :| 0 <= i < |ps| && 0 <= j < |ps| && ps[i] == p && ps[j] == q;
      FourthAndFifth();
    }
  }

  lemma FourthAndFifth()
    ensures NinePoints()[3].x == NinePoints()[4].x
  {}

  lemma OneCut(sx: seq<Point>, sy: seq<Point>, p: Point, q: Point)
    requires 8 < |sx| <= 16 && Considers(sx, sy, p, q) == true
    ensures var h := |sx| / 2;
      PairOf(sx[..h], p, q) || PairOf(sx[h..], p, q) || (p in sy && q in sy && p.x < sx[h].x <= q.x)
  {
    hide Keep, PairOf;
  }
}
