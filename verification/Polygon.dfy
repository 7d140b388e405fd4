/** The even-odd test of a point against a polygon, over the real numbers. */
module Polygon {

  datatype Vector2 = Vector2(x: real, y: real)

  // ---- One edge ----

  /** An edge whose ends are not on the same side of the horizontal line through p. */
  predicate Straddles(p: Vector2, a: Vector2, b: Vector2) {
    (a.y > p.y) != (b.y > p.y)
  }

  /** An edge that the ray from p to the right crosses. */
  predicate Crosses(p: Vector2, a: Vector2, b: Vector2) {
    Straddles(p, a, b) && p.x < (b.x - a.x) * (p.y - a.y) / (b.y - a.y) + a.x
  }

  /** Positive if a, b turns counterclockwise around p, with y upwards. */
  function Turn(p: Vector2, a: Vector2, b: Vector2): real {
    (a.x - p.x) * (b.y - p.y) - (a.y - p.y) * (b.x - p.x)
  }

  lemma Product(t: real, y: real)
    ensures t > 0.0 && y > 0.0 ==> t * y > 0.0
    ensures t < 0.0 && y > 0.0 ==> t * y < 0.0
    ensures t >= 0.0 && y <= 0.0 ==> t * y <= 0.0
    ensures t <= 0.0 && y <= 0.0 ==> t * y >= 0.0
    ensures t <= 0.0 && y > 0.0 ==> t * y <= 0.0
    ensures t * y == 0.0 ==> t == 0.0 || y == 0.0
  {
  }

  /** The crossing test, without its division: an edge that goes up is crossed if it turns one way
      around p, an edge that goes down if it turns the other way. */
  lemma CrossesByTurn(p: Vector2, a: Vector2, b: Vector2)
    ensures a.y <= p.y < b.y ==> (Crosses(p, a, b) <==> Turn(p, a, b) > 0.0)
    ensures b.y <= p.y < a.y ==> (Crosses(p, a, b) <==> Turn(p, a, b) < 0.0)
    ensures !Straddles(p, a, b) ==> !Crosses(p, a, b)
  {
    if Straddles(p, a, b) {
      var d, n := b.y - a.y, (b.x - a.x) * (p.y - a.y);
      var q := n / d;
      assert q * d == n;
      assert ((p.x - a.x) - q) * d == (p.x - a.x) * d - n == -Turn(p, a, b);
      Product((p.x - a.x) - q, d);
      Product((p.x - a.x) - q, -d);
    }
  }

  lemma CrossesBothWays(p: Vector2, a: Vector2, b: Vector2)
    ensures Crosses(p, a, b) == Crosses(p, b, a)
  {
    CrossesByTurn(p, a, b);
    CrossesByTurn(p, b, a);
    assert Turn(p, b, a) == -Turn(p, a, b);
    hide Crosses, Turn;
  }

  // ---- The polygon ----

  /** Whether the ray crosses a path an odd number of times. */
  predicate OddCrossings(p: Vector2, path: seq<Vector2>) {
    |path| >= 2 &&
      (OddCrossings(p, path[..|path| - 1]) != Crosses(p, path[|path| - 1], path[|path| - 2]))
  }

  function Closed(points: seq<Vector2>): seq<Vector2>
    requires points != []
  {
    [points[|points| - 1]] + points
  }

  predicate Inside(p: Vector2, points: seq<Vector2>) {
    |points| > 2 && OddCrossings(p, Closed(points))
  }

  method CheckCollisionPointPoly(point: Vector2, points: seq<Vector2>) returns (inside: bool)
    ensures inside == Inside(point, points)
  {
    inside := false;
    if |points| > 2 {
      ghost var path := Closed(points);
      hide Crosses;
      var i, j := 0, |points| - 1;
      while i < |points|
        invariant 0 <= i <= |points| && j == (if i == 0 then |points| else i) - 1
        invariant inside == OddCrossings(point, path[..i + 1])
      {
        assert path[..i + 2][..i + 1] == path[..i + 1];
        if Crosses(point, points[i], points[j]) {
          inside := !inside;
        }
        j := i;
        i := i + 1;
      }
      assert path[..|points| + 1] == path;
    }
  }

  // ---- The order of the vertices ----

  lemma {:induction false} Joined(p: Vector2, a: seq<Vector2>, x: Vector2, b: seq<Vector2>)
    ensures OddCrossings(p, a + [x] + b) == (OddCrossings(p, a + [x]) != OddCrossings(p, [x] + b))
    decreases |b|
  {
    hide Crosses;
    if b == [] {
      assert a + [x] + b == a + [x];
    } else {
      var n := |b| - 1;
      Joined(p, a, x, b[..n]);
      assert (a + [x] + b)[..|a| + 1 + n] == a + [x] + b[..n];
      assert ([x] + b)[..1 + n] == [x] + b[..n];
    }
  }

  /** Starting at another vertex does not change the result. */
  lemma RotationInvariant(p: Vector2, u: seq<Vector2>, v: seq<Vector2>)
    ensures Inside(p, u + v) == Inside(p, v + u)
  {
    hide Crosses, OddCrossings;
    if u == [] || v == [] {
      assert u + v == v + u;
    } else {
      var m, n := |u| - 1, |v| - 1;
      assert Closed(u + v) == [v[n]] + u[..m] + [u[m]] + v;
      assert Closed(v + u) == [u[m]] + v[..n] + [v[n]] + u;
      Joined(p, [v[n]] + u[..m], u[m], v);
      Joined(p, [u[m]] + v[..n], v[n], u);
      assert [v[n]] + u[..m] + [u[m]] == [v[n]] + u;
      assert [u[m]] + v[..n] + [v[n]] == [u[m]] + v;
    }
  }

  function Reversed(s: seq<Vector2>): (r: seq<Vector2>)
    ensures |r| == |s|
  {
    if s == [] then [] else [s[|s| - 1]] + Reversed(s[..|s| - 1])
  }

  lemma {:induction false} ReversedEnds(s: seq<Vector2>)
    requires s != []
    ensures Reversed(s)[0] == s[|s| - 1] && Reversed(s)[|s| - 1] == s[0]
  {
    if |s| > 1 {
      ReversedEnds(s[..|s| - 1]);
    }
  }

  lemma {:induction false} BackwardPath(p: Vector2, s: seq<Vector2>)
    ensures OddCrossings(p, Reversed(s)) == OddCrossings(p, s)
    decreases |s|
  {
    hide Crosses;
    if |s| >= 2 {
      var n := |s| - 1;
      var front := s[..n];
      ReversedEnds(front);
      BackwardPath(p, front);
      var r := Reversed(front);
      assert Reversed(s) == [s[n]] + [r[0]] + r[1..];
      assert [r[0]] + r[1..] == r;
      Joined(p, [s[n]], r[0], r[1..]);
      OneEdge(p, s[n], r[0]);
      CrossesBothWays(p, s[n], s[n - 1]);
    }
  }

  lemma OneEdge(p: Vector2, a: Vector2, b: Vector2)
    ensures OddCrossings(p, [a] + [b]) == Crosses(p, b, a)
  {
  }

  /** Neither does the sense in which they are listed. */
  lemma ReversalInvariant(p: Vector2, points: seq<Vector2>)
    ensures Inside(p, Reversed(points)) == Inside(p, points)
  {
    hide Crosses, OddCrossings;
    if points != [] {
      var n := |points| - 1;
      var first, last := points[0], points[n];
      ReversedEnds(points);
      assert Closed(Reversed(points)) == [first] + Reversed(points);
      ReversedOnto(first, points);
      BackwardPath(p, points + [first]);
      Joined(p, points[..n], last, [first]);
      assert points[..n] + [last] == points;
      Joined(p, [last], first, points[1..]);
      assert [first] + points[1..] == points;
      assert [last] + [first] + points[1..] == Closed(points);
    }
  }

  lemma ReversedOnto(x: Vector2, s: seq<Vector2>)
    ensures Reversed(s + [x]) == [x] + Reversed(s)
  {
  }

  lemma ClosedPath(p: Vector2, x: Vector2, points: seq<Vector2>)
    requires points != []
    ensures OddCrossings(p, [x] + points) == (Crosses(p, points[0], x) != OddCrossings(p, points))
  {
    hide Crosses, OddCrossings;
    assert [x] + points == [x] + [points[0]] + points[1..] && [points[0]] + points[1..] == points;
    Joined(p, [x], points[0], points[1..]);
    OneEdge(p, x, points[0]);
  }

  /** A further vertex adds or takes away the triangle that it makes with the edge it replaces. Together
      with triangles this determines the test on every polygon. */
  lemma OneVertexMore(p: Vector2, points: seq<Vector2>, v: Vector2)
    requires |points| >= 3
    ensures Inside(p, points + [v]) == (Inside(p, points) != Inside(p, [points[|points| - 1], v, points[0]]))
  {
    hide Crosses, OddCrossings;
    var first, last := points[0], points[|points| - 1];
    assert Closed(points) == [last] + points;
    assert Closed(points + [v]) == [v] + points + [v];
    assert [v] + points == ([v] + points[..|points| - 1]) + [last];
    NextEdge(p, [v] + points[..|points| - 1], last, v);
    ClosedPath(p, v, points);
    ClosedPath(p, last, points);
    ThreeEdges(p, last, v, first);
    CrossesBothWays(p, first, last);
  }

  // ---- Outside the bounding box ----

  /** Outside the half-open bounding box of the vertices. */
  predicate OutsideBox(p: Vector2, points: seq<Vector2>) {
    || (forall i :: 0 <= i < |points| ==> p.x < points[i].x)
    || (forall i :: 0 <= i < |points| ==> points[i].x <= p.x)
    || (forall i :: 0 <= i < |points| ==> p.y < points[i].y)
    || (forall i :: 0 <= i < |points| ==> points[i].y <= p.y)
  }

  lemma EdgeLeft(p: Vector2, a: Vector2, b: Vector2)
    requires p.x < a.x && p.x < b.x
    ensures Crosses(p, a, b) == Straddles(p, a, b)
  {
    CrossesByTurn(p, a, b);
    Product(a.x - p.x, b.y - p.y);
    Product(b.x - p.x, a.y - p.y);
    hide Crosses;
  }

  lemma EdgeRight(p: Vector2, a: Vector2, b: Vector2)
    requires a.x <= p.x && b.x <= p.x
    ensures !Crosses(p, a, b)
  {
    CrossesByTurn(p, a, b);
    Product(a.x - p.x, b.y - p.y);
    Product(b.x - p.x, a.y - p.y);
    hide Crosses;
  }

  /** A path straddles the horizontal line an odd number of times exactly if its ends are on different
      sides; if all of it is on the right, the ray meets it whenever it straddles. */
  lemma {:induction false} PathOnTheRight(p: Vector2, path: seq<Vector2>)
    requires path != [] && forall i :: 0 <= i < |path| ==> p.x < path[i].x
    ensures OddCrossings(p, path) == Straddles(p, path[0], path[|path| - 1])
  {
    hide Crosses;
    if |path| > 1 {
      PathOnTheRight(p, path[..|path| - 1]);
      EdgeLeft(p, path[|path| - 1], path[|path| - 2]);
    }
  }

  lemma {:induction false} PathOnOneSide(p: Vector2, path: seq<Vector2>)
    requires || (forall i :: 0 <= i < |path| ==> path[i].x <= p.x)
             || (forall i :: 0 <= i < |path| ==> p.y < path[i].y)
             || (forall i :: 0 <= i < |path| ==> path[i].y <= p.y)
    ensures !OddCrossings(p, path)
  {
    if |path| > 1 {
      var a, b := path[|path| - 1], path[|path| - 2];
      PathOnOneSide(p, path[..|path| - 1]);
      if a.x <= p.x && b.x <= p.x { EdgeRight(p, a, b); }
      hide Crosses;
      CrossesByTurn(p, a, b);
    }
  }

  lemma OutsideBoxNeverInside(p: Vector2, points: seq<Vector2>)
    requires OutsideBox(p, points)
    ensures !Inside(p, points)
  {
    hide OddCrossings;
    if |points| > 2 {
      var path := Closed(points);
      if forall i :: 0 <= i < |points| ==> p.x < points[i].x {
        PathOnTheRight(p, path);
      } else {
        PathOnOneSide(p, path);
      }
    }
  }

  // ---- Rectangles and triangles ----

  datatype Rectangle = Rectangle(x: real, y: real, width: real, height: real)

  predicate CheckCollisionPointRec(point: Vector2, rec: Rectangle) {
    point.x >= rec.x && point.x < rec.x + rec.width && point.y >= rec.y && point.y < rec.y + rec.height
  }

  function Corners(rec: Rectangle): seq<Vector2> {
    [Vector2(rec.x, rec.y), Vector2(rec.x + rec.width, rec.y),
     Vector2(rec.x + rec.width, rec.y + rec.height), Vector2(rec.x, rec.y + rec.height)]
  }

  lemma NextEdge(p: Vector2, path: seq<Vector2>, a: Vector2, b: Vector2)
    ensures OddCrossings(p, path + [a] + [b]) == (OddCrossings(p, path + [a]) != Crosses(p, b, a))
  {
  }

  lemma FourEdges(p: Vector2, a: Vector2, b: Vector2, c: Vector2, d: Vector2)
    ensures Inside(p, [a, b, c, d])
            == ((Crosses(p, a, d) != Crosses(p, b, a)) != (Crosses(p, c, b) != Crosses(p, d, c)))
  {
    hide Crosses, OddCrossings;
    assert Closed([a, b, c, d]) == [d, a, b] + [c] + [d];
    NextEdge(p, [d, a, b], c, d);
    assert [d, a, b] + [c] == [d, a] + [b] + [c];
    NextEdge(p, [d, a], b, c);
    assert [d, a] + [b] == [d] + [a] + [b];
    NextEdge(p, [d], a, b);
    OneEdge(p, d, a);
  }

  lemma ThreeEdges(p: Vector2, a: Vector2, b: Vector2, c: Vector2)
    ensures Inside(p, [a, b, c]) == ((Crosses(p, a, c) != Crosses(p, b, a)) != Crosses(p, c, b))
  {
    hide Crosses, OddCrossings;
    assert Closed([a, b, c]) == [c, a] + [b] + [c];
    NextEdge(p, [c, a], b, c);
    assert [c, a] + [b] == [c] + [a] + [b];
    NextEdge(p, [c], a, b);
    OneEdge(p, c, a);
  }

  /** On the corners of a rectangle the polygon test is the rectangle test: of the edges, the left one
      and the one at the smaller y belong to it. */
  lemma RectangleExactly(p: Vector2, rec: Rectangle)
    requires rec.width >= 0.0 && rec.height >= 0.0
    ensures Inside(p, Corners(rec)) == CheckCollisionPointRec(p, rec)
    ensures CheckCollisionPointRec(p, rec)
            <==> rec.x <= p.x < rec.x + rec.width && rec.y <= p.y < rec.y + rec.height
    ensures |Corners(rec)| == 4 && Corners(rec)[0] == Vector2(rec.x, rec.y)
    ensures Corners(rec)[2] == Vector2(rec.x + rec.width, rec.y + rec.height)
    ensures Corners(rec)[1] == Vector2(rec.x + rec.width, rec.y)
    ensures Corners(rec)[3] == Vector2(rec.x, rec.y + rec.height)
  {
    var cs := Corners(rec);
    FourEdges(p, cs[0], cs[1], cs[2], cs[3]);
    CrossesUpright(p, cs[1], cs[2]);
    CrossesUpright(p, cs[3], cs[0]);
    CrossesBothWays(p, cs[0], cs[3]);
    CrossesBothWays(p, cs[1], cs[2]);
  }

  lemma CrossesUpright(p: Vector2, a: Vector2, b: Vector2)
    requires a.x == b.x
    ensures Crosses(p, a, b) <==> Straddles(p, a, b) && p.x < a.x
  {
  }

  /** How far a point is from the line through base along the edge from a to b. */
  function Offset(p: Vector2, a: Vector2, b: Vector2, base: Vector2): real {
    (a.y - b.y) * (p.x - base.x) + (b.x - a.x) * (p.y - base.y)
  }

  function Share(part: real, whole: real): real
    requires whole != 0.0
  {
    part / whole
  }

  /** The barycentric test; a triangle without area makes its divisions give no number that passes. */
  predicate CheckCollisionPointTriangle(p: Vector2, p1: Vector2, p2: Vector2, p3: Vector2) {
    Offset(p1, p2, p3, p3) != 0.0 &&
      var alpha := Share(Offset(p, p2, p3, p3), Offset(p1, p2, p3, p3));
      var beta := Share(Offset(p, p3, p1, p3), Offset(p1, p2, p3, p3));
      var gamma := 1.0 - alpha - beta;
      alpha > 0.0 && beta > 0.0 && gamma > 0.0
  }

  /** All three edges turn the same way around a point inside. */
  predicate SameTurn(p: Vector2, a: Vector2, b: Vector2, c: Vector2) {
    || (Turn(p, a, b) > 0.0 && Turn(p, b, c) > 0.0 && Turn(p, c, a) > 0.0)
    || (Turn(p, a, b) < 0.0 && Turn(p, b, c) < 0.0 && Turn(p, c, a) < 0.0)
  }

  lemma PositiveQuotient(n: real, d: real)
    requires d != 0.0
    ensures Share(n, d) > 0.0 <==> (n > 0.0 && d > 0.0) || (n < 0.0 && d < 0.0)
  {
  }

  lemma RestOfOne(n1: real, n2: real, d: real)
    requires d != 0.0
    ensures 1.0 - Share(n1, d) - Share(n2, d) == Share(d - n1 - n2, d)
  {
    var q1, q2, q3 := n1 / d, n2 / d, (d - n1 - n2) / d;
    assert q1 * d == n1 && q2 * d == n2 && q3 * d == d - n1 - n2;
    assert (1.0 - q1 - q2 - q3) * d == d - q1 * d - q2 * d - q3 * d;
    Product(1.0 - q1 - q2 - q3, d);
  }

  lemma TriangleByTurn(p: Vector2, a: Vector2, b: Vector2, c: Vector2)
    ensures CheckCollisionPointTriangle(p, a, b, c) == SameTurn(p, a, b, c)
  {
    var n1, n2, n3, area := Turn(p, b, c), Turn(p, c, a), Turn(p, a, b), Offset(a, b, c, c);
    TurnsAddUp(p, a, b, c);
    hide Share, Turn, Offset;
    if area != 0.0 {
      RestOfOne(n1, n2, area);
      PositiveQuotient(n1, area);
      PositiveQuotient(n2, area);
      PositiveQuotient(n3, area);
    }
  }

  /** The numerators of the barycentric coordinates are turns, and add up to their denominator. */
  lemma TurnsAddUp(p: Vector2, a: Vector2, b: Vector2, c: Vector2)
    ensures Offset(p, b, c, c) == Turn(p, b, c) && Offset(p, c, a, c) == Turn(p, c, a)
    ensures Offset(a, b, c, c) == Turn(p, b, c) + Turn(p, c, a) + Turn(p, a, b)
  {
  }

  /** The three turns weigh the corners so that they balance at p. */
  lemma Balance(p: Vector2, a: Vector2, b: Vector2, c: Vector2)
    ensures Turn(p, b, c) * (a.y - p.y) + Turn(p, c, a) * (b.y - p.y) + Turn(p, a, b) * (c.y - p.y) == 0.0
    ensures Turn(p, b, c) * (a.x - p.x) + Turn(p, c, a) * (b.x - p.x) + Turn(p, a, b) * (c.x - p.x) == 0.0
  {
  }

  // The corners relative to p, and the turn of the edge opposite each: the polygon test by signs.

  /** An edge between heights y1 and y2 over p that is crossed, by its turn. */
  predicate CrossedBy(y1: real, y2: real, turn: real) {
    (y1 <= 0.0 < y2 && turn > 0.0) || (y2 <= 0.0 < y1 && turn < 0.0)
  }

  /** The side of an edge of a counterclockwise triangle that counts as inside, with what belongs to
      it of the edge's line: the line of an edge that goes down, and of a level one that goes right. */
  predicate TakenBy(x1: real, y1: real, x2: real, y2: real, turn: real) {
    turn > 0.0 || (turn == 0.0 && (y1 > y2 || (y1 == y2 && x1 < x2)))
  }

  /** Three weights that balance: an odd number of edges is crossed exactly if all have one sign. */
  lemma BalancedParity(ya: real, yb: real, yc: real, ta: real, tb: real, tc: real)
    requires ta != 0.0 && tb != 0.0 && tc != 0.0 && ta * ya + tb * yb + tc * yc == 0.0
    requires !(ya == yb == yc == 0.0)
    ensures ((CrossedBy(ya, yb, tc) != CrossedBy(yb, yc, ta)) != CrossedBy(yc, ya, tb))
            == ((ta > 0.0 && tb > 0.0 && tc > 0.0) || (ta < 0.0 && tb < 0.0 && tc < 0.0))
  {
    Product(ta, ya);
    Product(tb, yb);
    Product(tc, yc);
  }

  /** On the line of the edge from a to b: taken in between its ends if the edge is one to take. */
  lemma ParityOnLine(xa: real, ya: real, xb: real, yb: real, yc: real, ta: real, tb: real)
    requires ta != 0.0 && tb != 0.0 && ta + tb > 0.0 && ta * ya + tb * yb == 0.0
    requires ya == yb == 0.0 ==> ta + tb == (xb - xa) * yc
    ensures (CrossedBy(yb, yc, ta) != CrossedBy(yc, ya, tb)) == (ta > 0.0 && tb > 0.0 && TakenBy(xa, ya, xb, yb, 0.0))
  {
    Product(ta, ya);
    Product(tb, yb);
    Product(xb - xa, yc);
  }

  /** At the corner a: taken in if both of its edges are. */
  lemma ParityAtCorner(xb: real, yb: real, xc: real, yc: real, ta: real)
    requires ta > 0.0 && ta == xb * yc - yb * xc
    ensures CrossedBy(yb, yc, ta) == (TakenBy(0.0, 0.0, xb, yb, 0.0) && TakenBy(xc, yc, 0.0, 0.0, 0.0))
  {
    Product(xb, yc);
    Product(yb, xc);
    Product(xc, yb);
    if yb == 0.0 { Level(yb, xc); }
    if yc == 0.0 { Level(xb, yc); }
  }

  /** Without area two corners coincide or p is on the line of all three edges. */
  lemma ParityWithoutArea(ya: real, yb: real, yc: real, ta: real, tb: real)
    requires ta + tb == 0.0 && ta * ya + tb * yb == 0.0
    ensures CrossedBy(yb, yc, ta) == CrossedBy(yc, ya, tb)
  {
    assert tb * yb == -(ta * yb);
    assert ta * (ya - yb) == ta * ya - ta * yb;
    Product(ta, ya - yb);
  }

  lemma Level(u: real, v: real)
    requires u == 0.0 || v == 0.0
    ensures u * v == 0.0
  {
  }

  // The same for points.

  predicate Taken(p: Vector2, a: Vector2, b: Vector2) {
    TakenBy(a.x - p.x, a.y - p.y, b.x - p.x, b.y - p.y, Turn(p, a, b))
  }

  /** The triangle as the polygon test sees it, with its corners in counterclockwise order. */
  predicate TakenIn(p: Vector2, a: Vector2, b: Vector2, c: Vector2) {
    Taken(p, a, b) && Taken(p, b, c) && Taken(p, c, a)
  }

  function Area(a: Vector2, b: Vector2, c: Vector2): real {
    Offset(a, b, c, c)
  }

  lemma EdgeCrossed(p: Vector2, a: Vector2, b: Vector2)
    ensures Crosses(p, a, b) == Crosses(p, b, a) == CrossedBy(a.y - p.y, b.y - p.y, Turn(p, a, b))
  {
    CrossesByTurn(p, a, b);
    CrossesBothWays(p, a, b);
    hide Crosses, Turn;
  }

  /** The parity of the three crossings. */
  predicate OddEdges(p: Vector2, a: Vector2, b: Vector2, c: Vector2) {
    (CrossedBy(a.y - p.y, b.y - p.y, Turn(p, a, b)) != CrossedBy(b.y - p.y, c.y - p.y, Turn(p, b, c)))
    != CrossedBy(c.y - p.y, a.y - p.y, Turn(p, c, a))
  }

  lemma InsideByOddEdges(p: Vector2, a: Vector2, b: Vector2, c: Vector2)
    ensures Inside(p, [a, b, c]) == OddEdges(p, a, b, c)
  {
    ThreeEdges(p, a, b, c);
    hide Inside, Crosses, Turn, CrossedBy;
    EdgeCrossed(p, a, b);
    EdgeCrossed(p, b, c);
    EdgeCrossed(p, c, a);
  }

  lemma OffTheLines(p: Vector2, a: Vector2, b: Vector2, c: Vector2)
    requires Turn(p, a, b) != 0.0 && Turn(p, b, c) != 0.0 && Turn(p, c, a) != 0.0
    ensures OddEdges(p, a, b, c) == SameTurn(p, a, b, c)
  {
    Balance(p, a, b, c);
    assert a.y == b.y == p.y ==> Turn(p, a, b) == 0.0;
    hide Turn, CrossedBy;
    BalancedParity(a.y - p.y, b.y - p.y, c.y - p.y, Turn(p, b, c), Turn(p, c, a), Turn(p, a, b));
  }

  lemma OnTheLine(p: Vector2, a: Vector2, b: Vector2, c: Vector2)
    requires Turn(p, a, b) == 0.0 && Turn(p, b, c) != 0.0 && Turn(p, c, a) != 0.0 && Area(a, b, c) > 0.0
    ensures OddEdges(p, a, b, c) == TakenIn(p, a, b, c)
  {
    Balance(p, a, b, c);
    TurnsAddUp(p, a, b, c);
    Level(Turn(p, a, b), c.y - p.y);
    LevelArea(p, a, b, c);
    hide Turn, CrossedBy, TakenBy, Offset;
    ParityOnLine(a.x - p.x, a.y - p.y, b.x - p.x, b.y - p.y, c.y - p.y, Turn(p, b, c), Turn(p, c, a));
    SignOfLine(a.y - p.y, b.y - p.y, c.y - p.y);
    SignsTaken(p, a, b, c);
  }

  lemma SignOfLine(ya: real, yb: real, yc: real)
    ensures !CrossedBy(ya, yb, 0.0)
  {
  }

  lemma SignsTaken(p: Vector2, a: Vector2, b: Vector2, c: Vector2)
    ensures Turn(p, b, c) != 0.0 ==> (Taken(p, b, c) <==> Turn(p, b, c) > 0.0)
    ensures Turn(p, c, a) != 0.0 ==> (Taken(p, c, a) <==> Turn(p, c, a) > 0.0)
  {
    hide Turn;
  }

  lemma LevelArea(p: Vector2, a: Vector2, b: Vector2, c: Vector2)
    requires Turn(p, a, b) == 0.0
    ensures a.y - p.y == b.y - p.y == 0.0 ==>
              Turn(p, b, c) + Turn(p, c, a) == ((b.x - p.x) - (a.x - p.x)) * (c.y - p.y)
  {
    if a.y == b.y == p.y {
      Level(b.y - p.y, c.x - p.x);
      Level(c.x - p.x, a.y - p.y);
      assert Turn(p, b, c) == (b.x - p.x) * (c.y - p.y) - (b.y - p.y) * (c.x - p.x);
      assert Turn(p, c, a) == (c.x - p.x) * (a.y - p.y) - (c.y - p.y) * (a.x - p.x);
    }
  }

  lemma AtTheCorner(p: Vector2, a: Vector2, b: Vector2, c: Vector2)
    requires Turn(p, a, b) == 0.0 && Turn(p, c, a) == 0.0 && Area(a, b, c) > 0.0
    ensures p == a && OddEdges(p, a, b, c) == TakenIn(p, a, b, c)
  {
    Balance(p, a, b, c);
    TurnsAddUp(p, a, b, c);
    Level(Turn(p, a, b), c.y - p.y);
    Level(Turn(p, a, b), c.x - p.x);
    Level(Turn(p, c, a), b.y - p.y);
    Level(Turn(p, c, a), b.x - p.x);
    Product(Turn(p, b, c), a.y - p.y);
    Product(Turn(p, b, c), a.x - p.x);
    assert Turn(p, b, c) == (b.x - p.x) * (c.y - p.y) - (b.y - p.y) * (c.x - p.x);
    hide Turn, CrossedBy, TakenBy, Offset;
    ParityAtCorner(b.x - p.x, b.y - p.y, c.x - p.x, c.y - p.y, Turn(p, b, c));
    SignOfLine(a.y - p.y, b.y - p.y, c.y - p.y);
    SignOfLine(c.y - p.y, a.y - p.y, b.y - p.y);
    SignsTaken(p, a, b, c);
  }

  /** Turning the corners round changes neither side. */
  lemma TurnedRound(p: Vector2, a: Vector2, b: Vector2, c: Vector2)
    ensures OddEdges(p, b, c, a) == OddEdges(p, a, b, c) && TakenIn(p, b, c, a) == TakenIn(p, a, b, c)
    ensures Area(b, c, a) == Area(a, b, c)
  {
    TurnsAddUp(p, a, b, c);
    TurnsAddUp(p, b, c, a);
    hide Turn, CrossedBy, TakenBy, Offset;
  }

  lemma Counterclockwise(p: Vector2, a: Vector2, b: Vector2, c: Vector2)
    requires Area(a, b, c) > 0.0
    ensures OddEdges(p, a, b, c) == TakenIn(p, a, b, c)
  {
    TurnedRound(p, a, b, c);
    TurnedRound(p, b, c, a);
    hide OddEdges, TakenIn, Area, Turn;
    if Turn(p, a, b) == 0.0 {
      if Turn(p, c, a) == 0.0 { AtTheCorner(p, a, b, c); }
      else if Turn(p, b, c) == 0.0 { AtTheCorner(p, b, c, a); }
      else { OnTheLine(p, a, b, c); }
    } else if Turn(p, b, c) == 0.0 {
      if Turn(p, c, a) == 0.0 { AtTheCorner(p, c, a, b); } else { OnTheLine(p, b, c, a); }
    } else if Turn(p, c, a) == 0.0 {
      OnTheLine(p, c, a, b);
    } else {
      AllTurns(p, a, b, c);
    }
  }

  lemma AllTurns(p: Vector2, a: Vector2, b: Vector2, c: Vector2)
    requires Turn(p, a, b) != 0.0 && Turn(p, b, c) != 0.0 && Turn(p, c, a) != 0.0 && Area(a, b, c) > 0.0
    ensures OddEdges(p, a, b, c) == TakenIn(p, a, b, c)
  {
    OffTheLines(p, a, b, c);
    TurnsAddUp(p, a, b, c);
    hide Turn, CrossedBy, Offset, OddEdges;
  }

  lemma WithoutArea(p: Vector2, a: Vector2, b: Vector2, c: Vector2)
    requires Area(a, b, c) == 0.0
    ensures !OddEdges(p, a, b, c)
  {
    TurnedRound(p, a, b, c);
    TurnedRound(p, b, c, a);
    TurnsAddUp(p, a, b, c);
    if Turn(p, a, b) == 0.0 {
      WithoutAreaOnLine(p, a, b, c);
    } else if Turn(p, b, c) == 0.0 {
      WithoutAreaOnLine(p, b, c, a);
    } else if Turn(p, c, a) == 0.0 {
      WithoutAreaOnLine(p, c, a, b);
    } else {
      OffTheLines(p, a, b, c);
    }
    hide OddEdges, TakenIn, Turn, Offset;
  }

  lemma WithoutAreaOnLine(p: Vector2, a: Vector2, b: Vector2, c: Vector2)
    requires Area(a, b, c) == 0.0 && Turn(p, a, b) == 0.0
    ensures !OddEdges(p, a, b, c)
  {
    Balance(p, a, b, c);
    TurnsAddUp(p, a, b, c);
    Level(Turn(p, a, b), c.y - p.y);
    hide Turn, CrossedBy, Offset;
    ParityWithoutArea(a.y - p.y, b.y - p.y, c.y - p.y, Turn(p, b, c), Turn(p, c, a));
    SignOfLine(a.y - p.y, b.y - p.y, c.y - p.y);
  }

  /** The polygon test on a triangle, whatever its shape and the order of its corners: the inside,
      and of the boundary the edges on the left and the level edge at the smaller y. */
  lemma TriangleExactly(p: Vector2, a: Vector2, b: Vector2, c: Vector2)
    ensures Inside(p, [a, b, c])
            <==> (Area(a, b, c) > 0.0 && TakenIn(p, a, b, c)) || (Area(a, b, c) < 0.0 && TakenIn(p, c, b, a))
  {
    InsideByOddEdges(p, a, b, c);
    InsideByOddEdges(p, c, b, a);
    BackwardTriangle(p, a, b, c);
    hide Inside, OddEdges, Area, TakenIn;
    if Area(a, b, c) > 0.0 {
      Counterclockwise(p, a, b, c);
    } else if Area(a, b, c) < 0.0 {
      Counterclockwise(p, c, b, a);
    } else {
      WithoutArea(p, a, b, c);
    }
  }

  lemma BackwardTriangle(p: Vector2, a: Vector2, b: Vector2, c: Vector2)
    ensures Inside(p, [c, b, a]) == Inside(p, [a, b, c]) && Area(c, b, a) == -Area(a, b, c)
  {
    ReversalInvariant(p, [a, b, c]);
    assert [a, b, c][..2] == [a, b] && [a, b][..1] == [a];
    assert Reversed([a]) == [a] && Reversed([a, b]) == [b, a] && Reversed([a, b, c]) == [c, b, a];
    hide Inside;
  }

  /** The two tests differ exactly on the part of the boundary that the polygon test takes in. */
  lemma TriangleTestsDifferExactly(p: Vector2, a: Vector2, b: Vector2, c: Vector2)
    ensures Inside(p, [a, b, c]) != CheckCollisionPointTriangle(p, a, b, c)
            <==> && (Turn(p, a, b) == 0.0 || Turn(p, b, c) == 0.0 || Turn(p, c, a) == 0.0)
                 && ((Area(a, b, c) > 0.0 && TakenIn(p, a, b, c)) || (Area(a, b, c) < 0.0 && TakenIn(p, c, b, a)))
  {
    TriangleExactly(p, a, b, c);
    TriangleByTurn(p, a, b, c);
    TurnsAddUp(p, a, b, c);
    TurnsBack(p, a, b, c);
    hide Inside, CheckCollisionPointTriangle, Turn, Offset;
  }

  lemma TurnsBack(p: Vector2, a: Vector2, b: Vector2, c: Vector2)
    ensures Turn(p, b, a) == -Turn(p, a, b) && Turn(p, c, b) == -Turn(p, b, c) && Turn(p, a, c) == -Turn(p, c, a)
  {
  }

  /** For instance everywhere inside a level edge at the smaller y. */
  lemma LowerEdgeDiffers(p: Vector2, a: Vector2, b: Vector2, c: Vector2)
    requires a.y == b.y == p.y < c.y && a.x < p.x < b.x
    ensures Inside(p, [a, b, c]) && !CheckCollisionPointTriangle(p, a, b, c)
  {
    TriangleByTurn(p, a, b, c);
    InsideByOddEdges(p, a, b, c);
    TurnsOnLowerEdge(p, a, b, c);
    TurnsBack(p, a, b, c);
    hide Turn, CheckCollisionPointTriangle, Inside;
  }

  lemma TurnsOnLowerEdge(p: Vector2, a: Vector2, b: Vector2, c: Vector2)
    requires a.y == b.y == p.y < c.y && a.x < p.x < b.x
    ensures Turn(p, a, c) < 0.0 && Turn(p, c, b) < 0.0 && Turn(p, a, b) == 0.0
  {
    assert Turn(p, a, c) == (a.x - p.x) * (c.y - p.y) - (a.y - p.y) * (c.x - p.x);
    assert Turn(p, c, b) == (c.x - p.x) * (b.y - p.y) - (c.y - p.y) * (b.x - p.x);
    assert Turn(p, a, b) == (a.x - p.x) * (b.y - p.y) - (a.y - p.y) * (b.x - p.x);
    hide Turn;
    Product(a.x - p.x, c.y - p.y);
    Product(c.y - p.y, b.x - p.x);
    Level(a.y - p.y, c.x - p.x);
    Level(c.x - p.x, b.y - p.y);
    Level(a.x - p.x, b.y - p.y);
    Level(a.y - p.y, b.x - p.x);
  }

  lemma MiddleOfLowerEdge()
    ensures var a, b, c, p := Vector2(0.0, 0.0), Vector2(2.0, 0.0), Vector2(0.0, 2.0), Vector2(1.0, 0.0);
      Inside(p, [a, b, c]) && !CheckCollisionPointTriangle(p, a, b, c)
  {
    hide *;
    LowerEdgeDiffers(Vector2(1.0, 0.0), Vector2(0.0, 0.0), Vector2(2.0, 0.0), Vector2(0.0, 2.0));
  }

  /** Both tests on the triangle of the origin and the ends of the unit vectors. */
  lemma UnitTriangle(p: Vector2)
    ensures var a, b, c := Vector2(0.0, 0.0), Vector2(1.0, 0.0), Vector2(0.0, 1.0);
      && (Inside(p, [a, b, c]) <==> 0.0 <= p.x && 0.0 <= p.y && p.x + p.y < 1.0)
      && (CheckCollisionPointTriangle(p, a, b, c) <==> 0.0 < p.x && 0.0 < p.y && p.x + p.y < 1.0)
  {
    var a, b, c := Vector2(0.0, 0.0), Vector2(1.0, 0.0), Vector2(0.0, 1.0);
    TriangleExactly(p, a, b, c);
    TriangleByTurn(p, a, b, c);
    assert Turn(p, a, b) == p.y && Turn(p, b, c) == 1.0 - p.x - p.y && Turn(p, c, a) == p.x;
    assert Area(a, b, c) == 1.0;
    hide Inside, CheckCollisionPointTriangle, Turn, Area;
  }
}
