/** Which pixels a triangle covers: the test made by the fill loops for every pixel of the bounding
    box, the independence of vertex order, the bounding box, and the split of a quad in two.
 */
module Coverage {
  import opened Arith
  import opened Edges

  const MAX_PRIMITIVE_WIDTH := 1024
  const MAX_PRIMITIVE_HEIGHT := 512

  function Min3(a: int, b: int, c: int): int {
    var m := if a < b then a else b;
    if c < m then c else m
  }

  function Max3(a: int, b: int, c: int): int {
    var m := if a > b then a else b;
    if c > m then c else m
  }

  predicate TooLarge(v0: Point, v1: Point, v2: Point) {
    Max3(v0.x, v1.x, v2.x) - Min3(v0.x, v1.x, v2.x) + 1 > MAX_PRIMITIVE_WIDTH
    || Max3(v0.y, v1.y, v2.y) - Min3(v0.y, v1.y, v2.y) + 1 > MAX_PRIMITIVE_HEIGHT
  }

  predicate FarApart(a: Point, b: Point) {
    Abs(a.x - b.x) >= MAX_PRIMITIVE_WIDTH || Abs(a.y - b.y) >= MAX_PRIMITIVE_HEIGHT
  }

  /** A triangle is too large exactly if two of its corners are 1024 columns or 512 rows apart. */
  lemma TooLargeIff(v0: Point, v1: Point, v2: Point)
    ensures TooLarge(v0, v1, v2) <==> FarApart(v0, v1) || FarApart(v1, v2) || FarApart(v2, v0)
  {
  }

  /** The triangle's fill starts at all. */
  predicate Drawn(v0: Point, v1: Point, v2: Point) {
    Edge(v0, v1, v2) != 0 && !TooLarge(v0, v1, v2)
  }

  predicate Winding(v0: Point, v1: Point, v2: Point) {
    Edge(v0, v1, v2) < 0
  }

  /** The three tests of the fill loop. */
  predicate Covers(v0: Point, v1: Point, v2: Point, p: Point) {
    var neg := Winding(v0, v1, v2);
    Edge(v0, v1, v2) != 0
    && Accepts(v1, v2, neg, p) && Accepts(v2, v0, neg, p) && Accepts(v0, v1, neg, p)
  }

  // ---- Vertex order ----

  lemma AreaRotates(v0: Point, v1: Point, v2: Point)
    ensures Edge(v1, v2, v0) == Edge(v0, v1, v2)
  {
  }

  lemma AreaSwaps(v0: Point, v1: Point, v2: Point)
    ensures Edge(v0, v2, v1) == -Edge(v0, v1, v2)
  {
  }

  lemma CoverageRotates(v0: Point, v1: Point, v2: Point, p: Point)
    ensures Covers(v1, v2, v0, p) == Covers(v0, v1, v2, p)
    ensures Drawn(v1, v2, v0) == Drawn(v0, v1, v2)
  {
    AreaRotates(v0, v1, v2);
  }

  lemma CoverageSwaps(v0: Point, v1: Point, v2: Point, p: Point)
    ensures Covers(v0, v2, v1, p) == Covers(v0, v1, v2, p)
    ensures Drawn(v0, v2, v1) == Drawn(v0, v1, v2)
  {
    AreaSwaps(v0, v1, v2);
    var neg := Winding(v0, v1, v2);
    ReversedEdge(v0, v1, neg, p);
    ReversedEdge(v1, v2, neg, p);
    ReversedEdge(v2, v0, neg, p);
  }

  /** All six vertex orders cover the same pixels and are culled alike. */
  lemma CoverageIgnoresVertexOrder(v0: Point, v1: Point, v2: Point, p: Point)
    ensures Covers(v0, v1, v2, p) == Covers(v1, v2, v0, p) == Covers(v2, v0, v1, p)
            == Covers(v0, v2, v1, p) == Covers(v2, v1, v0, p) == Covers(v1, v0, v2, p)
    ensures Drawn(v0, v1, v2) == Drawn(v1, v2, v0) == Drawn(v2, v0, v1)
            == Drawn(v0, v2, v1) == Drawn(v2, v1, v0) == Drawn(v1, v0, v2)
  {
    CoverageRotates(v0, v1, v2, p);
    CoverageRotates(v1, v2, v0, p);
    CoverageSwaps(v0, v1, v2, p);
    CoverageRotates(v0, v2, v1, p);
    CoverageRotates(v2, v1, v0, p);
  }

  // ---- Barycentric weights ----

  /** The three signed weights of any point add up to the area. */
  lemma WeightsSum(v0: Point, v1: Point, v2: Point, p: Point)
    ensures Edge(v1, v2, p) + Edge(v2, v0, p) + Edge(v0, v1, p) == Edge(v0, v1, v2)
  {
  }

  lemma MeanOfX(v0: Point, v1: Point, v2: Point, p: Point)
    ensures Edge(v0, v1, v2) * p.x
            == Edge(v1, v2, p) * v0.x + Edge(v2, v0, p) * v1.x + Edge(v0, v1, p) * v2.x
  {
  }

  lemma MeanOfY(v0: Point, v1: Point, v2: Point, p: Point)
    ensures Edge(v0, v1, v2) * p.y
            == Edge(v1, v2, p) * v0.y + Edge(v2, v0, p) * v1.y + Edge(v0, v1, p) * v2.y
  {
  }

  // ---- Bounding box ----

  predicate InBox(v0: Point, v1: Point, v2: Point, p: Point) {
    Min3(v0.x, v1.x, v2.x) <= p.x <= Max3(v0.x, v1.x, v2.x)
    && Min3(v0.y, v1.y, v2.y) <= p.y <= Max3(v0.y, v1.y, v2.y)
  }

  /** A mean with non-negative weights is no less than the least of its values. */
  lemma MeanAtLeast(w0: int, w1: int, w2: int, c0: int, c1: int, c2: int, lo: int, m: int)
    requires 0 <= w0 && 0 <= w1 && 0 <= w2 && 0 < w0 + w1 + w2
    requires lo <= c0 && lo <= c1 && lo <= c2
    requires (w0 + w1 + w2) * m == w0 * c0 + w1 * c1 + w2 * c2
    ensures lo <= m
  {
    var a := w0 + w1 + w2;
    MulMono(lo, c0, w0);
    MulMono(lo, c1, w1);
    MulMono(lo, c2, w2);
    assert a * lo == w0 * lo + w1 * lo + w2 * lo;
    assert a * (m + 1) == a * m + a;
    if m < lo {
      MulMono(m + 1, lo, a);
    }
  }

  lemma MeanWithin(w0: int, w1: int, w2: int, c0: int, c1: int, c2: int, lo: int, hi: int, m: int)
    requires 0 <= w0 && 0 <= w1 && 0 <= w2 && 0 < w0 + w1 + w2
    requires lo <= c0 <= hi && lo <= c1 <= hi && lo <= c2 <= hi
    requires (w0 + w1 + w2) * m == w0 * c0 + w1 * c1 + w2 * c2
    ensures lo <= m <= hi
  {
    MeanAtLeast(w0, w1, w2, c0, c1, c2, lo, m);
    assert w0 * -c0 + w1 * -c1 + w2 * -c2 == -(w0 * c0 + w1 * c1 + w2 * c2);
    assert (w0 + w1 + w2) * -m == -((w0 + w1 + w2) * m);
    MeanAtLeast(w0, w1, w2, -c0, -c1, -c2, -hi, -m);
  }

  lemma CoveredWeights(v0: Point, v1: Point, v2: Point, p: Point)
    requires Covers(v0, v1, v2, p)
    ensures var neg := Winding(v0, v1, v2);
            var w0, w1, w2 := Weight(v1, v2, neg, p), Weight(v2, v0, neg, p), Weight(v0, v1, neg, p);
            0 <= w0 && 0 <= w1 && 0 <= w2 && 0 < w0 + w1 + w2 == Weight(v0, v1, neg, v2)
  {
    WeightsSum(v0, v1, v2, p);
  }

  /** No pixel of the whole plane that passes the three tests lies outside the scanned box. */
  lemma BoundingBoxMissesNothing(v0: Point, v1: Point, v2: Point, p: Point)
    requires Covers(v0, v1, v2, p)
    ensures InBox(v0, v1, v2, p)
  {
    var neg := Winding(v0, v1, v2);
    var w0, w1, w2 := Weight(v1, v2, neg, p), Weight(v2, v0, neg, p), Weight(v0, v1, neg, p);
    CoveredWeights(v0, v1, v2, p);
    MeanOfX(v0, v1, v2, p);
    MeanOfY(v0, v1, v2, p);
    NegatedMean(Edge(v1, v2, p), Edge(v2, v0, p), Edge(v0, v1, p), v0.x, v1.x, v2.x);
    NegatedMean(Edge(v1, v2, p), Edge(v2, v0, p), Edge(v0, v1, p), v0.y, v1.y, v2.y);
    MulNegated(Edge(v0, v1, v2), p.x);
    MulNegated(Edge(v0, v1, v2), p.y);
    MeanWithin(w0, w1, w2, v0.x, v1.x, v2.x, Min3(v0.x, v1.x, v2.x), Max3(v0.x, v1.x, v2.x), p.x);
    MeanWithin(w0, w1, w2, v0.y, v1.y, v2.y, Min3(v0.y, v1.y, v2.y), Max3(v0.y, v1.y, v2.y), p.y);
  }

  lemma NegatedMean(w0: int, w1: int, w2: int, c0: int, c1: int, c2: int)
    ensures -w0 * c0 + -w1 * c1 + -w2 * c2 == -(w0 * c0 + w1 * c1 + w2 * c2)
  {
  }

  // ---- Two triangles sharing an edge ----

  /** Triangles of one winding that share an edge never draw the same pixel, whatever their shape. */
  lemma SharedEdgeDrawnOnce(a: Point, b: Point, c: Point, d: Point, p: Point)
    requires Winding(a, b, c) == Winding(b, a, d)
    ensures !(Covers(a, b, c, p) && Covers(b, a, d, p))
  {
    if Covers(a, b, c, p) {
      assert a != b;
      ExactlyOneSide(a, b, Winding(a, b, c), p);
    }
  }

  /** Corners v0, v2, v3, v1 in perimeter order turn one way; neither half is degenerate. */
  ghost predicate ConvexQuad(v0: Point, v1: Point, v2: Point, v3: Point, neg: bool) {
    Weight(v0, v2, neg, v1) > 0 && Weight(v1, v2, neg, v3) > 0
    && Weight(v0, v2, neg, v3) >= 0 && Weight(v1, v0, neg, v3) >= 0
  }

  /** An edge form at the nudged point is the weighted mean of its values at the corners. */
  lemma NudgedMean(v0: Point, v1: Point, v2: Point, a: Point, b: Point, neg: bool, p: Point, n: int)
    ensures Weight(v0, v1, neg, v2) * NudgedWeight(a, b, neg, p, n)
            == NudgedWeight(v1, v2, neg, p, n) * Weight(a, b, neg, v0)
               + NudgedWeight(v2, v0, neg, p, n) * Weight(a, b, neg, v1)
               + NudgedWeight(v0, v1, neg, p, n) * Weight(a, b, neg, v2)
  {
    var s := n * n;
    var x, y := s * p.x + n, s * p.y + 1;
    ScaledMean(v0, v1, v2, a, b, s, x, y);
    NudgedIsScaled(a, b, p, n);
    NudgedIsScaled(v1, v2, p, n);
    NudgedIsScaled(v2, v0, p, n);
    NudgedIsScaled(v0, v1, p, n);
    SignsCancel(Edge(v0, v1, v2), ScaledEdge(a, b, s, x, y));
    SignsCancel(ScaledEdge(v1, v2, s, x, y), Edge(a, b, v0));
    SignsCancel(ScaledEdge(v2, v0, s, x, y), Edge(a, b, v1));
    SignsCancel(ScaledEdge(v0, v1, s, x, y), Edge(a, b, v2));
  }

  lemma SignsCancel(x: int, y: int)
    ensures -x * -y == x * y
  {
  }

  /** s times the edge form at the point (x/s, y/s). */
  function ScaledEdge(a: Point, b: Point, s: int, x: int, y: int): int {
    (x - s * a.x) * (b.y - a.y) - (y - s * a.y) * (b.x - a.x)
  }

  lemma NudgedIsScaled(a: Point, b: Point, p: Point, n: int)
    ensures NudgedWeight(a, b, false, p, n) == ScaledEdge(a, b, n * n, n * n * p.x + n, n * n * p.y + 1)
    ensures NudgedWeight(a, b, true, p, n) == -ScaledEdge(a, b, n * n, n * n * p.x + n, n * n * p.y + 1)
  {
    var s := n * n;
    Apart(s, p.x, a.x);
    Apart(s, p.y, a.y);
  }

  lemma Apart(s: int, x: int, y: int)
    ensures s * (x - y) == s * x - s * y
  {
  }

  lemma ScaledMean(v0: Point, v1: Point, v2: Point, a: Point, b: Point, s: int, x: int, y: int)
    ensures Edge(v0, v1, v2) * ScaledEdge(a, b, s, x, y)
            == ScaledEdge(v1, v2, s, x, y) * Edge(a, b, v0)
               + ScaledEdge(v2, v0, s, x, y) * Edge(a, b, v1)
               + ScaledEdge(v0, v1, s, x, y) * Edge(a, b, v2)
  {
    // Measured from v0, two of the corner weights lose their constant part.
    var p1, q1, p2, q2 := v1.x - v0.x, v1.y - v0.y, v2.x - v0.x, v2.y - v0.y;
    var rx, ry := x - s * v0.x, y - s * v0.y;
    var dx, dy := b.x - a.x, b.y - a.y;
    var k := Edge(a, b, v0);
    ScaledSum(v0, v1, v2, s, x, y);
    FromOrigin(v2, v0, s, x, y);
    EdgeFrom(a, b, v0, v1);
    EdgeFrom(a, b, v0, v2);
    ScaledEdgeFrom(a, b, v0, s, x, y);
    RelativeMean(p1, q1, p2, q2, rx, ry, s, dx, dy, k, Edge(v0, v1, v2),
                 ScaledEdge(v1, v2, s, x, y), ScaledEdge(v2, v0, s, x, y), ScaledEdge(v0, v1, s, x, y),
                 Edge(a, b, v1), Edge(a, b, v2), ScaledEdge(a, b, s, x, y));
  }

  lemma FromOrigin(a: Point, b: Point, s: int, x: int, y: int)
    ensures ScaledEdge(a, b, s, x, y) == (y - s * b.y) * (a.x - b.x) - (x - s * b.x) * (a.y - b.y)
  {
    Reoriented(x - s * b.x, y - s * b.y, s, a.x - b.x, a.y - b.y);
    MulSum(s, a.x, -b.x);
    MulNegated(s, b.x);
    MulSum(s, a.y, -b.y);
    MulNegated(s, b.y);
  }

  lemma Reoriented(x: int, y: int, s: int, u: int, v: int)
    ensures (x - s * u) * -v - (y - s * v) * -u == y * u - x * v
  {
  }

  lemma EdgeFrom(a: Point, b: Point, o: Point, v: Point)
    ensures Edge(a, b, v) == Edge(a, b, o) + (v.x - o.x) * (b.y - a.y) - (v.y - o.y) * (b.x - a.x)
  {
  }

  lemma ScaledEdgeFrom(a: Point, b: Point, o: Point, s: int, x: int, y: int)
    ensures ScaledEdge(a, b, s, x, y)
            == (x - s * o.x) * (b.y - a.y) - (y - s * o.y) * (b.x - a.x) + s * Edge(a, b, o)
  {
    var dx, dy := b.x - a.x, b.y - a.y;
    assert x - s * a.x == x - s * o.x + s * (o.x - a.x);
    assert y - s * a.y == y - s * o.y + s * (o.y - a.y);
    assert s * ((o.x - a.x) * dy) == s * (o.x - a.x) * dy;
    assert s * ((o.y - a.y) * dx) == s * (o.y - a.y) * dx;
  }

  lemma ScaledSum(v0: Point, v1: Point, v2: Point, s: int, x: int, y: int)
    ensures ScaledEdge(v1, v2, s, x, y) + ScaledEdge(v2, v0, s, x, y) + ScaledEdge(v0, v1, s, x, y)
            == Edge(v0, v1, v2) * s
  {
  }

  lemma RelativeMean(p1: int, q1: int, p2: int, q2: int, x: int, y: int, s: int, dx: int, dy: int, k: int,
                     area: int, w0: int, w1: int, w2: int, e1: int, e2: int, t: int)
    requires area == p2 * q1 - q2 * p1 && w1 == y * p2 - x * q2 && w2 == x * q1 - y * p1
    requires w0 + w1 + w2 == area * s
    requires e1 == k + p1 * dy - q1 * dx && e2 == k + p2 * dy - q2 * dx && t == x * dy - y * dx + s * k
    ensures area * t == w0 * k + w1 * e1 + w2 * e2
  {
    MomentX(p1, q1, p2, q2, x, y);
    MomentY(p1, q1, p2, q2, x, y);
    assert w0 == area * s - w1 - w2;
    Regroup(area, w1, w2, p1, q1, p2, q2, s, dx, dy, k);
    Expand(area, x, y, s, dx, dy, k);
  }

  lemma MomentX(p1: int, q1: int, p2: int, q2: int, x: int, y: int)
    ensures (y * p2 - x * q2) * p1 + (x * q1 - y * p1) * p2 == (p2 * q1 - q2 * p1) * x
  {
  }

  lemma MomentY(p1: int, q1: int, p2: int, q2: int, x: int, y: int)
    ensures (y * p2 - x * q2) * q1 + (x * q1 - y * p1) * q2 == (p2 * q1 - q2 * p1) * y
  {
  }

  lemma Regroup(area: int, w1: int, w2: int, p1: int, q1: int, p2: int, q2: int, s: int, dx: int, dy: int, k: int)
    ensures (area * s - w1 - w2) * k + w1 * (k + p1 * dy - q1 * dx) + w2 * (k + p2 * dy - q2 * dx)
            == area * s * k + (w1 * p1 + w2 * p2) * dy - (w1 * q1 + w2 * q2) * dx
  {
  }

  lemma Expand(area: int, x: int, y: int, s: int, dx: int, dy: int, k: int)
    ensures area * (x * dy - y * dx + s * k) == area * s * k + area * x * dy - area * y * dx
  {
  }

  /** An edge that has the whole triangle on its inner side, one corner strictly, accepts every
      pixel the triangle covers. */
  lemma OuterEdgeAccepts(v0: Point, v1: Point, v2: Point, a: Point, b: Point, neg: bool, p: Point)
    requires neg == Winding(v0, v1, v2) && Covers(v0, v1, v2, p)
    requires Weight(a, b, neg, v0) >= 0 && Weight(a, b, neg, v1) >= 0 && Weight(a, b, neg, v2) >= 0
    requires Weight(a, b, neg, v0) > 0 || Weight(a, b, neg, v1) > 0 || Weight(a, b, neg, v2) > 0
    ensures Accepts(a, b, neg, p)
  {
    AcceptsIffNudgedInside(v1, v2, neg, p);
    AcceptsIffNudgedInside(v2, v0, neg, p);
    AcceptsIffNudgedInside(v0, v1, neg, p);
    AcceptsIffNudgedInside(a, b, neg, p);
    var n0: nat :| InsideFrom(v1, v2, neg, p, n0);
    var n1: nat :| InsideFrom(v2, v0, neg, p, n1);
    var n2: nat :| InsideFrom(v0, v1, neg, p, n2);
    forall n: nat | n0 + n1 + n2 < n
      ensures NudgedWeight(a, b, neg, p, n) > 0
    {
      var u0, u1 := NudgedWeight(v1, v2, neg, p, n), NudgedWeight(v2, v0, neg, p, n);
      var u2 := NudgedWeight(v0, v1, neg, p, n);
      assert u0 > 0 && u1 > 0 && u2 > 0;
      NudgedMean(v0, v1, v2, a, b, neg, p, n);
      MulPos(u0, Weight(a, b, neg, v0));
      MulPos(u1, Weight(a, b, neg, v1));
      MulPos(u2, Weight(a, b, neg, v2));
      PositiveFactor(Weight(v0, v1, neg, v2), NudgedWeight(a, b, neg, p, n));
    }
    assert InsideFrom(a, b, neg, p, n0 + n1 + n2);
  }

  lemma PositiveFactor(x: int, y: int)
    requires x > 0 && x * y > 0
    ensures y > 0
  {
  }

  /** A convex quad drawn as (v0, v2, v1) and (v1, v2, v3): a pixel is drawn by one of the two
      triangles exactly when the four outer edges accept it, and never by both. */
  lemma QuadPartition(v0: Point, v1: Point, v2: Point, v3: Point, neg: bool, p: Point)
    requires ConvexQuad(v0, v1, v2, v3, neg)
    ensures Covers(v0, v2, v1, p) || Covers(v1, v2, v3, p)
            <==> Accepts(v0, v2, neg, p) && Accepts(v2, v3, neg, p)
                 && Accepts(v3, v1, neg, p) && Accepts(v1, v0, neg, p)
    ensures !(Covers(v0, v2, v1, p) && Covers(v1, v2, v3, p))
  {
    assert Winding(v0, v2, v1) == neg && Winding(v1, v2, v3) == neg;
    CoverageRotates(v1, v0, v2, p);
    CoverageRotates(v0, v2, v1, p);
    AreaRotates(v1, v0, v2);
    AreaRotates(v0, v2, v1);
    SharedEdgeDrawnOnce(v2, v1, v0, v3, p);
    ExactlyOneSide(v2, v1, neg, p);
    QuadCorners(v0, v1, v2, v3, neg);
    if Covers(v0, v2, v1, p) {
      OuterEdgeAccepts(v0, v2, v1, v2, v3, neg, p);
      OuterEdgeAccepts(v0, v2, v1, v3, v1, neg, p);
    }
    if Covers(v1, v2, v3, p) {
      OuterEdgeAccepts(v1, v2, v3, v0, v2, neg, p);
      OuterEdgeAccepts(v1, v2, v3, v1, v0, neg, p);
    }
  }

  lemma QuadCorners(v0: Point, v1: Point, v2: Point, v3: Point, neg: bool)
    requires ConvexQuad(v0, v1, v2, v3, neg)
    ensures Weight(v2, v3, neg, v0) >= 0 && Weight(v2, v3, neg, v1) > 0
    ensures Weight(v3, v1, neg, v0) >= 0 && Weight(v3, v1, neg, v2) > 0
    ensures Weight(v1, v0, neg, v2) > 0
  {
    AreaRotates(v0, v2, v3);
    AreaRotates(v2, v3, v0);
    AreaRotates(v1, v2, v3);
    AreaRotates(v1, v0, v3);
    AreaRotates(v3, v1, v0);
    AreaRotates(v2, v3, v1);
    AreaRotates(v0, v2, v1);
    AreaRotates(v2, v1, v0);
  }
}
