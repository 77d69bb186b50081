/** Half-plane tests of the software rasteriser, with the top-left tie rule.

    A pixel that lies exactly on an edge is decided by the direction of that edge. The main
    result, `AcceptsIffNudgedInside`, says what the rule means: a pixel is accepted exactly when
    it is strictly on the inner side after being moved by a vanishing +x and a still smaller +y.
 */
module Edges {
  import opened Arith

  datatype Point = Point(x: int, y: int)

  /** Twice the signed area of (a, b, p). */
  function Edge(a: Point, b: Point, p: Point): int {
    (p.x - a.x) * (b.y - a.y) - (p.y - a.y) * (b.x - a.x)
  }

  predicate IsTopLeft(a: Point, b: Point) {
    (a.y == b.y && a.x > b.x) || a.y < b.y
  }

  predicate AcceptsZero(a: Point, b: Point, neg: bool) {
    if neg then IsTopLeft(b, a) else IsTopLeft(a, b)
  }

  /** The weight the fill loop compares with zero: negated when the triangle winds negatively. */
  function Weight(a: Point, b: Point, neg: bool, p: Point): int {
    if neg then -Edge(a, b, p) else Edge(a, b, p)
  }

  predicate Accepts(a: Point, b: Point, neg: bool, p: Point) {
    var w := Weight(a, b, neg, p);
    w > 0 || (w == 0 && AcceptsZero(a, b, neg))
  }

  // ---- What the tie rule means ----

  /** The weight of the point (p.x + 1/n, p.y + 1/n^2), scaled by n^2 to stay in the integers. */
  function NudgedWeight(a: Point, b: Point, neg: bool, p: Point, n: int): int {
    var w := (n * n * (p.x - a.x) + n) * (b.y - a.y) - (n * n * (p.y - a.y) + 1) * (b.x - a.x);
    if neg then -w else w
  }

  ghost predicate InsideFrom(a: Point, b: Point, neg: bool, p: Point, n0: nat) {
    forall n: nat :: n0 < n ==> NudgedWeight(a, b, neg, p, n) > 0
  }

  /** p is strictly inside the edge for every small enough nudge. */
  ghost predicate NudgedInside(a: Point, b: Point, neg: bool, p: Point) {
    exists n0: nat :: InsideFrom(a, b, neg, p, n0)
  }

  /** Sign of c0*n*n + c1*n + c2 for all large n. */
  predicate LexPositive(c0: int, c1: int, c2: int) {
    c0 > 0 || (c0 == 0 && (c1 > 0 || (c1 == 0 && c2 > 0)))
  }

  function Poly(c0: int, c1: int, c2: int, n: int): int {
    n * (n * c0 + c1) + c2
  }

  function Rise(a: Point, b: Point, neg: bool): int { if neg then a.y - b.y else b.y - a.y }

  function Run(a: Point, b: Point, neg: bool): int { if neg then b.x - a.x else a.x - b.x }

  lemma AcceptsIsLexPositive(a: Point, b: Point, neg: bool, p: Point)
    ensures Accepts(a, b, neg, p) <==> LexPositive(Weight(a, b, neg, p), Rise(a, b, neg), Run(a, b, neg))
  {
  }

  lemma NudgedIsPoly(a: Point, b: Point, neg: bool, p: Point, n: int)
    ensures NudgedWeight(a, b, neg, p, n) == Poly(Weight(a, b, neg, p), Rise(a, b, neg), Run(a, b, neg), n)
  {
    NudgedTerms(n, p.x - a.x, p.y - a.y, b.x - a.x, b.y - a.y);
    MulNegated(n, n * Edge(a, b, p) + (b.y - a.y));
    MulNegated(n, Edge(a, b, p));
  }

  lemma NudgedTerms(n: int, u: int, v: int, dx: int, dy: int)
    ensures (n * n * u + n) * dy - (n * n * v + 1) * dx == n * (n * (u * dy - v * dx) + dy) - dx
  {
    var m := n * n;
    assert (m * u + n) * dy == m * (u * dy) + n * dy;
    assert (m * v + 1) * dx == m * (v * dx) + dx;
    MulSum(m, u * dy, -(v * dx));
    MulNegated(m, v * dx);
    MulAssoc(n, n, u * dy - v * dx);
    MulSum(n, n * (u * dy - v * dx), dy);
  }

  /** Once n exceeds the other coefficients, the first non-zero one decides the sign. */
  lemma LeadingTermDecides(c0: int, c1: int, c2: int, n: int)
    requires LexPositive(c0, c1, c2) && n > Abs(c1) + Abs(c2)
    ensures Poly(c0, c1, c2, n) > 0
  {
    if c0 > 0 {
      MulMono(1, c0, n);
      MulMono(1, n * c0 + c1, n);
    } else if c1 > 0 {
      MulMono(1, c1, n);
    }
  }

  /** Acceptance is exactly strict interiority after the nudge, for every edge and every pixel. */
  lemma AcceptsIffNudgedInside(a: Point, b: Point, neg: bool, p: Point)
    ensures Accepts(a, b, neg, p) <==> NudgedInside(a, b, neg, p)
  {
    var c0, c1, c2 := Weight(a, b, neg, p), Rise(a, b, neg), Run(a, b, neg);
    AcceptsIsLexPositive(a, b, neg, p);
    if Accepts(a, b, neg, p) {
      forall n: nat | Abs(c1) + Abs(c2) < n
        ensures NudgedWeight(a, b, neg, p, n) > 0
      {
        NudgedIsPoly(a, b, neg, p, n);
        LeadingTermDecides(c0, c1, c2, n);
      }
      assert InsideFrom(a, b, neg, p, Abs(c1) + Abs(c2));
    } else if NudgedInside(a, b, neg, p) {
      var n0: nat :| InsideFrom(a, b, neg, p, n0);
      RejectedStaysOut(a, b, neg, p, n0 + 1 + Abs(c1) + Abs(c2));
    }
  }

  lemma RejectedStaysOut(a: Point, b: Point, neg: bool, p: Point, n: nat)
    requires !Accepts(a, b, neg, p) && n > Abs(Rise(a, b, neg)) + Abs(Run(a, b, neg))
    ensures NudgedWeight(a, b, neg, p, n) <= 0
  {
    var c0, c1, c2 := Weight(a, b, neg, p), Rise(a, b, neg), Run(a, b, neg);
    AcceptsIsLexPositive(a, b, neg, p);
    NudgedIsPoly(a, b, neg, p, n);
    NegatedPoly(c0, c1, c2, n);
    if LexPositive(-c0, -c1, -c2) {
      LeadingTermDecides(-c0, -c1, -c2, n);
    }
  }

  lemma NegatedPoly(c0: int, c1: int, c2: int, n: int)
    ensures Poly(-c0, -c1, -c2, n) == -Poly(c0, c1, c2, n)
  {
    calc {
      n * (n * -c0 + -c1) + -c2;
      -(n * (n * c0 + c1) + c2);
    }
  }

  /** Reversing an edge together with the winding changes nothing. */
  lemma ReversedEdge(a: Point, b: Point, neg: bool, p: Point)
    ensures Edge(b, a, p) == -Edge(a, b, p)
    ensures Accepts(b, a, !neg, p) == Accepts(a, b, neg, p)
  {
    assert Edge(b, a, p) == -Edge(a, b, p);
  }

  /** A proper edge splits the pixels in two: each is accepted on exactly one side. */
  lemma ExactlyOneSide(a: Point, b: Point, neg: bool, p: Point)
    requires a != b
    ensures Accepts(a, b, neg, p) != Accepts(b, a, neg, p)
  {
    ReversedEdge(a, b, neg, p);
  }
}
