/** Fixed-point attribute planes: a colour channel is interpolated over a triangle from two gradients
    that come from a rounded-up reciprocal instead of a division.
 */
module Attributes {
  import opened Arith
  import opened Edges
  import opened Coverage

  const FRACTION := 4096 // 12 fractional bits
  const WORD32 := 0x1_0000_0000
  const WORD64 := 0x1_0000_0000_0000_0000

  lemma {:induction false} Pow2Adds(m: nat, n: nat)
    ensures Pow2(m + n) == Pow2(m) * Pow2(n)
  {
    if m > 0 {
      Pow2Adds(m - 1, n);
      MulAssoc(2, Pow2(m - 1), Pow2(n));
    }
  }

  lemma {:induction false} Pow2Mono(m: nat, n: nat)
    requires m <= n
    ensures Pow2(m) <= Pow2(n)
  {
    if m < n { Pow2Mono(m, n - 1); }
  }

  /** Zeros above the highest set bit of d, looking from bit `top` down. */
  function LeadingZeros(d: nat, top: nat): (s: nat)
    ensures s <= top
  {
    if top == 0 || d >= Pow2(top) then 0 else 1 + LeadingZeros(d, top - 1)
  }

  function Clz(d: nat): (s: nat)
    ensures s <= 31
  {
    LeadingZeros(d, 31)
  }

  lemma {:induction false} HighestBit(d: nat, top: nat)
    requires 0 < d < Pow2(top + 1)
    ensures var s := LeadingZeros(d, top); Pow2(top - s) <= d < Pow2(top - s + 1)
  {
    if top > 0 && d < Pow2(top) { HighestBit(d, top - 1); }
  }

  /** Shifting by the count brings the top bit to bit 31. */
  lemma ClzNormalizes(d: nat)
    requires 0 < d < WORD32
    ensures WORD32 / 2 <= d * Pow2(Clz(d)) < WORD32
  {
    var s := Clz(d);
    assert Pow2(31) == WORD32 / 2 && Pow2(32) == WORD32 by { Pow2Values(); }
    HighestBit(d, 31);
    Pow2Adds(31 - s, s);
    Pow2Adds(31 - s + 1, s);
    MulMono(Pow2(31 - s), d, Pow2(s));
    MulLess(d, Pow2(31 - s + 1), Pow2(s));
  }

  const UNIT := 0x4_0000_0000_0000 // 2^50; 2^62 is 4096 of them

  function Reciprocal(normalized: nat): nat
    requires 0 < normalized
  {
    (FRACTION * UNIT + normalized - 1) / normalized
  }

  lemma QuotientNonNegative(x: nat, n: nat)
    requires 0 < n
    ensures 0 <= x / n
  {
  }

  /** A gradient's size. `MagnitudeWithin` shows that the 32-bit reciprocal and the 64-bit product of
      the original never wrap for the gradients of a drawn triangle. */
  function StepMagnitude(m: nat, denominator: nat): nat
    requires 0 < denominator < WORD32
  {
    var shift := Clz(denominator);
    MulPos(denominator, Pow2(shift));
    var reciprocal := Reciprocal(denominator * Pow2(shift));
    MulPos(m, reciprocal);
    QuotientNonNegative(m * reciprocal, Pow2(62 - shift - 12));
    m * reciprocal / Pow2(62 - shift - 12)
  }

  function Step(numerator: int, denominator: nat): int
    requires 0 < denominator < WORD32
  {
    if numerator == 0 then 0 else
      var value: int := StepMagnitude(Abs(numerator), denominator);
      if numerator < 0 then -value else value
  }

  lemma Pow2Values()
    ensures Pow2(12) == 4096 && Pow2(19) == 0x8_0000 && Pow2(31) == WORD32 / 2
    ensures Pow2(32) == WORD32 && Pow2(50) == 0x4_0000_0000_0000 && Pow2(62) == 0x4000_0000_0000_0000
  {
    assert Pow2(12) == 4096;
    assert Pow2(24) == 0x100_0000 by { Pow2Adds(12, 12); }
    assert Pow2(19) == 0x8_0000 by { assert Pow2(7) == 128; Pow2Adds(7, 12); }
    assert Pow2(31) == WORD32 / 2 by { Pow2Adds(12, 19); }
    assert Pow2(32) == 2 * Pow2(31);
    assert Pow2(50) == 0x4_0000_0000_0000 by { Pow2Adds(19, 31); }
    assert Pow2(62) == 0x4000_0000_0000_0000 by { Pow2Adds(12, 50); }
  }

  // ---- A gradient is within one unit of the exact quotient ----

  /** The core estimate, on plain numbers: n = d * ps is the normalised divisor, r its rounded-up
      reciprocal, b the final divisor. */
  lemma QuotientAbove(m: nat, d: nat, ps: nat, n: nat, r: nat, b: nat, v: nat)
    requires 0 < m && 0 < d && n == d * ps && b * ps == UNIT && m <= b
    requires r * n < FRACTION * UNIT + n && v * b <= m * r
    ensures v * d < FRACTION * m + d
  {
    assert b * n == UNIT * d by { MulAssoc(b, ps, d); assert b * n == b * (ps * d); }
    calc {
      (v * d) * UNIT;
      { MulAssoc(v, d, UNIT); }
      v * (d * UNIT);
      { MulAssoc(v, b, n); }
      (v * b) * n;
    <= { MulMono(v * b, m * r, n); }
      (m * r) * n;
      { MulAssoc(m, r, n); }
      m * (r * n);
    <= { MulMono(r * n, FRACTION * UNIT + (n - 1), m); }
      m * (FRACTION * UNIT + (n - 1));
      { MulSum(m, FRACTION * UNIT, n - 1); MulSum(m, n, -1); }
      m * (FRACTION * UNIT) + m * n - m;
    < { MulMono(m, b, n); }
      m * (FRACTION * UNIT) + d * UNIT;
      { MulAssoc(m, FRACTION, UNIT); MulSum(UNIT, m * FRACTION, d); }
      (m * FRACTION + d) * UNIT;
    }
    CancelLess(v * d, m * FRACTION + d, UNIT);
  }

  lemma QuotientBelow(m: nat, d: nat, ps: nat, n: nat, r: nat, b: nat, v: nat)
    requires 0 < m && 0 < d && 0 < ps && n == d * ps && b * ps == UNIT
    requires FRACTION * UNIT <= r * n && m * r < (v + 1) * b
    ensures FRACTION * m < v * d + d
  {
    MulPos(d, ps);
    assert b * n == UNIT * d by { MulAssoc(b, ps, d); assert b * n == b * (ps * d); }
    calc {
      (m * FRACTION) * UNIT;
      { MulAssoc(m, FRACTION, UNIT); }
      m * (FRACTION * UNIT);
    <= { MulMono(FRACTION * UNIT, r * n, m); }
      m * (r * n);
      { MulAssoc(m, r, n); }
      (m * r) * n;
    < { MulLess(m * r, (v + 1) * b, n); }
      ((v + 1) * b) * n;
      { MulAssoc(v + 1, b, n); }
      (v + 1) * (UNIT * d);
      { MulAssoc(v + 1, d, UNIT); }
      ((v + 1) * d) * UNIT;
    }
    CancelLess(m * FRACTION, (v + 1) * d, UNIT);
    MulSum(d, v, 1);
  }

  lemma ReciprocalFits(n: nat, r: nat)
    requires WORD32 / 2 <= n < WORD32 && r * n < FRACTION * UNIT + n
    ensures r < WORD32
  {
    if r >= WORD32 {
      MulMono(WORD32, r, n);
    }
  }

  lemma ReciprocalBounds(denominator: nat)
    requires 0 < denominator < WORD32
    ensures var n := denominator * Pow2(Clz(denominator));
            0 < n && FRACTION * UNIT <= Reciprocal(n) * n < FRACTION * UNIT + n && Reciprocal(n) < WORD32
  {
    var n := denominator * Pow2(Clz(denominator));
    ClzNormalizes(denominator);
    CeilDiv(FRACTION * UNIT, n);
    ReciprocalFits(n, Reciprocal(n));
  }

  lemma MagnitudeIsFloor(m: nat, denominator: nat)
    requires 0 < denominator < WORD32
    ensures var s := Clz(denominator);
            var b, v := Pow2(62 - s - 12), StepMagnitude(m, denominator);
            0 < denominator * Pow2(s)
            && v * b <= m * Reciprocal(denominator * Pow2(s)) < (v + 1) * b
  {
    var s := Clz(denominator);
    MulPos(denominator, Pow2(s));
    var r := Reciprocal(denominator * Pow2(s));
    MulPos(m, r);
    FloorDiv(m * r, Pow2(62 - s - 12));
  }

  lemma MagnitudeWithin(m: nat, denominator: nat)
    requires 0 < denominator < WORD32 && 0 < m <= 0x8_0000
    ensures FRACTION * m - denominator < StepMagnitude(m, denominator) * denominator < FRACTION * m + denominator
    ensures 0 < denominator * Pow2(Clz(denominator))
    ensures var r := Reciprocal(denominator * Pow2(Clz(denominator))); r < WORD32 && m * r < WORD64
  {
    var s := Clz(denominator);
    var ps, b, v := Pow2(s), Pow2(62 - s - 12), StepMagnitude(m, denominator);
    var n := denominator * ps;
    ReciprocalBounds(denominator);
    var r := Reciprocal(n);
    MulMono(m, 0x8_0000, r);
    MagnitudeIsFloor(m, denominator);
    FinalDivisor(s);
    QuotientAbove(m, denominator, ps, n, r, b, v);
    QuotientBelow(m, denominator, ps, n, r, b, v);
  }

  lemma FinalDivisor(s: nat)
    requires s <= 31
    ensures Pow2(62 - s - 12) * Pow2(s) == UNIT && 0x8_0000 <= Pow2(62 - s - 12)
  {
    Pow2Values();
    Pow2Adds(50 - s, s);
    Pow2Mono(19, 50 - s);
  }

  /** The exact quotient is numerator * 4096 / denominator. */
  lemma StepWithin(numerator: int, denominator: nat)
    requires 0 < denominator < WORD32 && Abs(numerator) <= 0x8_0000
    ensures Abs(Step(numerator, denominator) * denominator - FRACTION * numerator) < denominator
  {
    if numerator != 0 {
      MagnitudeWithin(Abs(numerator), denominator);
      var v := StepMagnitude(Abs(numerator), denominator);
      MulNegated(v, denominator);
    }
  }

  // ---- Planes ----

  datatype Plane = Plane(originX: int, originY: int, origin: int, stepX: int, stepY: int)

  function NumeratorX(v0: Point, a0: int, v1: Point, a1: int, v2: Point, a2: int): int {
    (a1 - a0) * (v2.y - v0.y) - (a2 - a0) * (v1.y - v0.y)
  }

  function NumeratorY(v0: Point, a0: int, v1: Point, a1: int, v2: Point, a2: int): int {
    (v1.x - v0.x) * (a2 - a0) - (v2.x - v0.x) * (a1 - a0)
  }

  /** Area in the sign convention of the plane set-up, which is opposite to `Edge`. */
  function PlaneArea(v0: Point, v1: Point, v2: Point): int {
    (v1.x - v0.x) * (v2.y - v0.y) - (v1.y - v0.y) * (v2.x - v0.x)
  }

  function MakePlane(v0: Point, a0: int, v1: Point, a1: int, v2: Point, a2: int): Plane
    requires 0 < Abs(PlaneArea(v0, v1, v2)) < WORD32
  {
    var area := PlaneArea(v0, v1, v2);
    var nx := NumeratorX(v0, a0, v1, a1, v2, a2);
    var ny := NumeratorY(v0, a0, v1, a1, v2, a2);
    Plane(v0.x, v0.y, a0 * FRACTION + FRACTION / 2,
          Step(if area < 0 then -nx else nx, Abs(area)),
          Step(if area < 0 then -ny else ny, Abs(area)))
  }

  function PlaneValue(plane: Plane, p: Point): int {
    plane.origin + (p.x - plane.originX) * plane.stepX + (p.y - plane.originY) * plane.stepY
  }

  function Sample(plane: Plane, p: Point): (c: int)
    ensures 0 <= c <= 255
  {
    var value := PlaneValue(plane, p);
    if value < 0 then 0 else
      var c := value / FRACTION;
      if c > 255 then 255 else c
  }

  /** The exact interpolation times |area|: a sum over the corners in which order plays no part. */
  function Blend(v0: Point, a0: int, v1: Point, a1: int, v2: Point, a2: int, p: Point): int {
    var neg := Winding(v0, v1, v2);
    Weight(v1, v2, neg, p) * a0 + Weight(v2, v0, neg, p) * a1 + Weight(v0, v1, neg, p) * a2
  }

  lemma BlendIsPlanar(v0: Point, a0: int, v1: Point, a1: int, v2: Point, a2: int, p: Point)
    ensures Edge(v1, v2, p) * a0 + Edge(v2, v0, p) * a1 + Edge(v0, v1, p) * a2
            == -(PlaneArea(v0, v1, v2) * a0 + (p.x - v0.x) * NumeratorX(v0, a0, v1, a1, v2, a2)
                 + (p.y - v0.y) * NumeratorY(v0, a0, v1, a1, v2, a2))
  {
    var dx, dy := p.x - v0.x, p.y - v0.y;
    var w0, w1, w2 := Edge(v1, v2, p), Edge(v2, v0, p), Edge(v0, v1, p);
    WeightsSum(v0, v1, v2, p);
    EdgeThrough(v2, v0, p);
    PlaneAreaIsEdge(v0, v1, v2);
    PlanarSum(dx, dy, v1.x - v0.x, v1.y - v0.y, v2.x - v0.x, v2.y - v0.y, a1 - a0, a2 - a0);
    ShiftedSum(w0, w1, w2, a0, a1, a2);
    MulNegated(Edge(v0, v1, v2), a0);
  }

  lemma EdgeThrough(a: Point, b: Point, p: Point)
    ensures Edge(a, b, p) == (p.y - b.y) * (a.x - b.x) - (p.x - b.x) * (a.y - b.y)
  {
  }

  lemma ShiftedSum(w0: int, w1: int, w2: int, a0: int, a1: int, a2: int)
    ensures w0 * a0 + w1 * a1 + w2 * a2 == (w0 + w1 + w2) * a0 + w1 * (a1 - a0) + w2 * (a2 - a0)
  {
  }

  lemma PlanarSum(dx: int, dy: int, p1: int, q1: int, p2: int, q2: int, d1: int, d2: int)
    ensures (dy * p2 - dx * q2) * d1 + (dx * q1 - dy * p1) * d2
            == -(dx * (d1 * q2 - d2 * q1) + dy * (p1 * d2 - p2 * d1))
  {
  }

  /** Scaling up the plane's value: the exact blend, half a level, and the two gradient errors. */
  lemma ValueExpansion(area: int, a0: int, dx: int, dy: int, nx: int, ny: int, sx: int, sy: int)
    ensures area * (a0 * FRACTION + FRACTION / 2 + dx * sx + dy * sy)
            == FRACTION * (area * a0 + dx * nx + dy * ny) + FRACTION / 2 * area
               + dx * (sx * area - FRACTION * nx) + dy * (sy * area - FRACTION * ny)
  {
    assert dx * (sx * area - FRACTION * nx) == area * (dx * sx) - FRACTION * (dx * nx);
    assert dy * (sy * area - FRACTION * ny) == area * (dy * sy) - FRACTION * (dy * ny);
  }

  lemma ProductBound(x: int, e: int, bound: nat, limit: nat)
    requires Abs(x) <= bound && Abs(e) <= limit
    ensures Abs(x * e) <= bound * limit
  {
    MulMono(Abs(x), bound, Abs(e));
    MulMono(Abs(e), limit, bound);
    assert Abs(x * e) == Abs(x) * Abs(e) by {
      assert -x * e == -(x * e) && x * -e == -(x * e) && -x * -e == x * e;
    }
  }

  /** q is the floor of value / 4096; all products with the area are given as single numbers. */
  lemma LevelNearBlend(area: int, blend: int, av: int, aq: int)
    requires 0 < area
    requires Abs(av - 4096 * blend - 2048 * area) <= 1534 * (area - 1)
    requires 4096 * aq <= av <= 4096 * aq + 4095 * area
    ensures 8 * Abs(aq - blend) < 7 * area
  {
  }

  lemma FloorScaled(area: int, value: int)
    requires 0 < area
    ensures FRACTION * (area * (value / FRACTION)) <= area * value
            <= FRACTION * (area * (value / FRACTION)) + 4095 * area
  {
    var q := value / FRACTION;
    MulMono(FRACTION * q, value, area);
    MulMono(value, FRACTION * q + 4095, area);
    MulSum(area, FRACTION * q, 4095);
    MulAssoc(area, FRACTION, q);
    MulAssoc(FRACTION, area, q);
  }

  /** From the scaled value to the level: the clamp never acts, and whole levels are exact. */
  lemma LevelBounds(area: int, blend: int, value: int)
    requires 0 < area && 0 <= blend <= 255 * area
    requires Abs(area * value - FRACTION * blend - FRACTION / 2 * area) <= 1534 * (area - 1)
    ensures 0 <= value && 0 <= value / FRACTION <= 255
    ensures 8 * Abs(area * (value / FRACTION) - blend) < 7 * area
  {
    if value < 0 { MulMono(value, -1, area); }
    var q := value / FRACTION;
    FloorScaled(area, value);
    LevelNearBlend(area, blend, area * value, area * q);
    if q > 255 { MulMono(256, q, area); }
  }

  lemma WholeLevelExact(area: int, q: int, t: int)
    requires 0 < area && 8 * Abs(area * q - area * t) < 7 * area
    ensures q == t
  {
    if q > t { MulMono(t + 1, q, area); MulSum(area, t, 1); }
    if q < t { MulMono(q, t - 1, area); MulSum(area, t, -1); }
  }

  // ---- Accuracy of the sampled channel ----

  predicate Channel(a: int) { 0 <= a <= 255 }

  lemma DrawnExtent(v0: Point, v1: Point, v2: Point, p: Point)
    requires Drawn(v0, v1, v2) && InBox(v0, v1, v2, p)
    ensures Abs(p.x - v0.x) <= 1023 && Abs(p.y - v0.y) <= 511
    ensures Abs(v1.x - v0.x) <= 1023 && Abs(v2.x - v0.x) <= 1023
    ensures Abs(v1.y - v0.y) <= 511 && Abs(v2.y - v0.y) <= 511
    ensures 0 < Abs(PlaneArea(v0, v1, v2)) < WORD32
    ensures Abs(PlaneArea(v0, v1, v2)) == Abs(Edge(v0, v1, v2))
  {
    ProductBound(v1.x - v0.x, v2.y - v0.y, 1023, 511);
    ProductBound(v1.y - v0.y, v2.x - v0.x, 511, 1023);
    PlaneAreaIsEdge(v0, v1, v2);
  }

  lemma PlaneAreaIsEdge(v0: Point, v1: Point, v2: Point)
    ensures PlaneArea(v0, v1, v2) == -Edge(v0, v1, v2)
  {
  }

  lemma NumeratorBounds(v0: Point, a0: int, v1: Point, a1: int, v2: Point, a2: int, p: Point)
    requires Drawn(v0, v1, v2) && InBox(v0, v1, v2, p) && Channel(a0) && Channel(a1) && Channel(a2)
    ensures Abs(NumeratorX(v0, a0, v1, a1, v2, a2)) <= 0x8_0000
    ensures Abs(NumeratorY(v0, a0, v1, a1, v2, a2)) <= 0x8_0000
  {
    DrawnExtent(v0, v1, v2, p);
    ProductBound(a1 - a0, v2.y - v0.y, 255, 511);
    ProductBound(a2 - a0, v1.y - v0.y, 255, 511);
    ProductBound(v1.x - v0.x, a2 - a0, 1023, 255);
    ProductBound(v2.x - v0.x, a1 - a0, 1023, 255);
  }

  /** The plane's value is within 1534/4096 of the exact interpolation plus one half. */
  lemma PlaneValueWithin(v0: Point, a0: int, v1: Point, a1: int, v2: Point, a2: int, p: Point)
    requires Drawn(v0, v1, v2) && InBox(v0, v1, v2, p) && Channel(a0) && Channel(a1) && Channel(a2)
    ensures 0 < Abs(PlaneArea(v0, v1, v2)) < WORD32
    ensures var area := Abs(PlaneArea(v0, v1, v2));
            Abs(area * PlaneValue(MakePlane(v0, a0, v1, a1, v2, a2), p)
                - FRACTION * Blend(v0, a0, v1, a1, v2, a2, p) - FRACTION / 2 * area) <= 1534 * (area - 1)
  {
    DrawnExtent(v0, v1, v2, p);
    NumeratorBounds(v0, a0, v1, a1, v2, a2, p);
    PlaneAreaIsEdge(v0, v1, v2);
    var area, neg := Abs(PlaneArea(v0, v1, v2)), Winding(v0, v1, v2);
    var nx, ny := NumeratorX(v0, a0, v1, a1, v2, a2), NumeratorY(v0, a0, v1, a1, v2, a2);
    var mx, my := if neg then nx else -nx, if neg then ny else -ny;
    StepWithin(mx, area);
    StepWithin(my, area);
    SignedBlend(v0, a0, v1, a1, v2, a2, p, area, mx, my);
    var plane := MakePlane(v0, a0, v1, a1, v2, a2);
    assert plane == Plane(v0.x, v0.y, a0 * FRACTION + FRACTION / 2, Step(mx, area), Step(my, area));
    ValueError(area, a0, p.x - v0.x, p.y - v0.y, mx, my, plane.stepX, plane.stepY);
  }

  lemma ValueError(area: int, a0: int, dx: int, dy: int, nx: int, ny: int, sx: int, sy: int)
    requires 0 < area && Abs(dx) <= 1023 && Abs(dy) <= 511
    requires Abs(sx * area - FRACTION * nx) < area && Abs(sy * area - FRACTION * ny) < area
    ensures Abs(area * (a0 * FRACTION + FRACTION / 2 + dx * sx + dy * sy)
                - FRACTION * (area * a0 + dx * nx + dy * ny) - FRACTION / 2 * area) <= 1534 * (area - 1)
  {
    ValueExpansion(area, a0, dx, dy, nx, ny, sx, sy);
    ProductBound(dx, sx * area - FRACTION * nx, 1023, area - 1);
    ProductBound(dy, sy * area - FRACTION * ny, 511, area - 1);
  }

  lemma SignedBlend(v0: Point, a0: int, v1: Point, a1: int, v2: Point, a2: int, p: Point,
                    area: int, mx: int, my: int)
    requires Edge(v0, v1, v2) != 0 && area == Abs(PlaneArea(v0, v1, v2))
    requires PlaneArea(v0, v1, v2) == -Edge(v0, v1, v2)
    requires mx == if Winding(v0, v1, v2) then NumeratorX(v0, a0, v1, a1, v2, a2)
                   else -NumeratorX(v0, a0, v1, a1, v2, a2)
    requires my == if Winding(v0, v1, v2) then NumeratorY(v0, a0, v1, a1, v2, a2)
                   else -NumeratorY(v0, a0, v1, a1, v2, a2)
    ensures Blend(v0, a0, v1, a1, v2, a2, p) == area * a0 + (p.x - v0.x) * mx + (p.y - v0.y) * my
  {
    BlendIsPlanar(v0, a0, v1, a1, v2, a2, p);
    var w0, w1, w2 := Edge(v1, v2, p), Edge(v2, v0, p), Edge(v0, v1, p);
    var dx, dy := p.x - v0.x, p.y - v0.y;
    MulNegated(w0, a0);
    MulNegated(w1, a1);
    MulNegated(w2, a2);
    MulNegated(PlaneArea(v0, v1, v2), a0);
    MulNegated(dx, mx);
    MulNegated(dy, my);
  }

  /** Every channel of every covered pixel is within 7/8 of a level of the exact planar
      interpolation, and equals it wherever that is a whole level. */
  lemma SampleAccuracy(v0: Point, a0: int, v1: Point, a1: int, v2: Point, a2: int, p: Point)
    requires Drawn(v0, v1, v2) && Covers(v0, v1, v2, p) && Channel(a0) && Channel(a1) && Channel(a2)
    ensures 0 < Abs(PlaneArea(v0, v1, v2)) < WORD32
    ensures var area := Abs(Edge(v0, v1, v2));
            var c, blend := Sample(MakePlane(v0, a0, v1, a1, v2, a2), p), Blend(v0, a0, v1, a1, v2, a2, p);
            8 * Abs(area * c - blend) < 7 * area
            && forall t: int :: blend == area * t ==> c == t
  {
    BoundingBoxMissesNothing(v0, v1, v2, p);
    DrawnExtent(v0, v1, v2, p);
    PlaneValueWithin(v0, a0, v1, a1, v2, a2, p);
    BlendInRange(v0, a0, v1, a1, v2, a2, p);
    var area := Abs(Edge(v0, v1, v2));
    var blend, value := Blend(v0, a0, v1, a1, v2, a2, p), PlaneValue(MakePlane(v0, a0, v1, a1, v2, a2), p);
    LevelBounds(area, blend, value);
    forall t: int | blend == area * t
      ensures value / FRACTION == t
    {
      WholeLevelExact(area, value / FRACTION, t);
    }
  }

  lemma BlendInRange(v0: Point, a0: int, v1: Point, a1: int, v2: Point, a2: int, p: Point)
    requires Covers(v0, v1, v2, p) && Channel(a0) && Channel(a1) && Channel(a2)
    ensures 0 <= Blend(v0, a0, v1, a1, v2, a2, p) <= 255 * Abs(Edge(v0, v1, v2))
  {
    CoveredWeights(v0, v1, v2, p);
    var neg := Winding(v0, v1, v2);
    var w0, w1, w2 := Weight(v1, v2, neg, p), Weight(v2, v0, neg, p), Weight(v0, v1, neg, p);
    MulPos(w0, a0);
    MulPos(w1, a1);
    MulPos(w2, a2);
    MulMono(a0, 255, w0);
    MulMono(a1, 255, w1);
    MulMono(a2, 255, w2);
  }

  /** A triangle of one colour is filled with exactly that colour. */
  lemma FlatColourExact(v0: Point, v1: Point, v2: Point, a: int, p: Point)
    requires Drawn(v0, v1, v2) && Covers(v0, v1, v2, p) && Channel(a)
    ensures 0 < Abs(PlaneArea(v0, v1, v2)) < WORD32
    ensures Sample(MakePlane(v0, a, v1, a, v2, a), p) == a
  {
    SampleAccuracy(v0, a, v1, a, v2, a, p);
    CoveredWeights(v0, v1, v2, p);
    var neg := Winding(v0, v1, v2);
    var w0, w1, w2 := Weight(v1, v2, neg, p), Weight(v2, v0, neg, p), Weight(v0, v1, neg, p);
    MulSum(a, w0 + w1, w2);
    MulSum(a, w0, w1);
    assert Blend(v0, a, v1, a, v2, a, p) == Abs(Edge(v0, v1, v2)) * a;
  }

  // ---- Vertex order ----

  datatype Corner = Corner(pos: Point, level: int)

  predicate Rearranged(u0: Corner, u1: Corner, u2: Corner, v0: Corner, v1: Corner, v2: Corner) {
    (u0 == v0 && u1 == v1 && u2 == v2) || (u0 == v1 && u1 == v2 && u2 == v0)
    || (u0 == v2 && u1 == v0 && u2 == v1) || (u0 == v0 && u1 == v2 && u2 == v1)
    || (u0 == v2 && u1 == v1 && u2 == v0) || (u0 == v1 && u1 == v0 && u2 == v2)
  }

  lemma BlendIgnoresOrder(u0: Corner, u1: Corner, u2: Corner, v0: Corner, v1: Corner, v2: Corner, p: Point)
    requires Rearranged(u0, u1, u2, v0, v1, v2) && Edge(v0.pos, v1.pos, v2.pos) != 0
    ensures Blend(u0.pos, u0.level, u1.pos, u1.level, u2.pos, u2.level, p)
            == Blend(v0.pos, v0.level, v1.pos, v1.level, v2.pos, v2.level, p)
    ensures Abs(Edge(u0.pos, u1.pos, u2.pos)) == Abs(Edge(v0.pos, v1.pos, v2.pos))
  {
    AreaRotates(v0.pos, v1.pos, v2.pos);
    AreaRotates(v1.pos, v2.pos, v0.pos);
    AreaSwaps(v0.pos, v1.pos, v2.pos);
    AreaSwaps(v2.pos, v0.pos, v1.pos);
    AreaSwaps(v1.pos, v2.pos, v0.pos);
    ReversedEdge(v0.pos, v1.pos, false, p);
    ReversedEdge(v1.pos, v2.pos, false, p);
    ReversedEdge(v2.pos, v0.pos, false, p);
  }

  function SampleOf(v0: Corner, v1: Corner, v2: Corner, p: Point): (c: int)
    requires 0 < Abs(PlaneArea(v0.pos, v1.pos, v2.pos)) < WORD32
    ensures 0 <= c <= 255
  {
    Sample(MakePlane(v0.pos, v0.level, v1.pos, v1.level, v2.pos, v2.level), p)
  }

  /** Any two vertex orders give levels that differ by at most one. */
  lemma VertexOrdersWithinOneLevel(u0: Corner, u1: Corner, u2: Corner, v0: Corner, v1: Corner, v2: Corner, p: Point)
    requires Rearranged(u0, u1, u2, v0, v1, v2)
    requires Drawn(v0.pos, v1.pos, v2.pos) && Covers(v0.pos, v1.pos, v2.pos, p)
    requires Channel(v0.level) && Channel(v1.level) && Channel(v2.level)
    ensures 0 < Abs(PlaneArea(u0.pos, u1.pos, u2.pos)) < WORD32
    ensures 0 < Abs(PlaneArea(v0.pos, v1.pos, v2.pos)) < WORD32
    ensures Abs(SampleOf(u0, u1, u2, p) - SampleOf(v0, v1, v2, p)) <= 1
  {
    CoverageIgnoresVertexOrder(v0.pos, v1.pos, v2.pos, p);
    BlendIgnoresOrder(u0, u1, u2, v0, v1, v2, p);
    SampleAccuracy(v0.pos, v0.level, v1.pos, v1.level, v2.pos, v2.level, p);
    SampleAccuracy(u0.pos, u0.level, u1.pos, u1.level, u2.pos, u2.level, p);
    CloseLevels(Abs(Edge(v0.pos, v1.pos, v2.pos)), Blend(v0.pos, v0.level, v1.pos, v1.level, v2.pos, v2.level, p),
                SampleOf(u0, u1, u2, p), SampleOf(v0, v1, v2, p));
  }

  lemma CloseLevels(area: int, blend: int, c: int, d: int)
    requires 0 < area && 8 * Abs(area * c - blend) < 7 * area && 8 * Abs(area * d - blend) < 7 * area
    ensures Abs(c - d) <= 1
  {
    if c - d >= 2 { MulMono(d + 2, c, area); MulSum(area, d, 2); }
    if d - c >= 2 { MulMono(c + 2, d, area); MulSum(area, c, 2); }
  }

  // ---- Colours of textured triangles: a division instead of a plane ----

  /** Coordinates are doubled so that pixel centres (2x+1, 2y+1) are whole numbers. */
  function Doubled(v: Point): Point { Point(2 * v.x, 2 * v.y) }

  function Centre(p: Point): Point { Point(2 * p.x + 1, 2 * p.y + 1) }

  function DivisionSample(v0: Corner, v1: Corner, v2: Corner, p: Point): int
    requires Edge(Doubled(v0.pos), Doubled(v1.pos), Doubled(v2.pos)) != 0
  {
    var s0, s1, s2 := Doubled(v0.pos), Doubled(v1.pos), Doubled(v2.pos);
    var area := Abs(Edge(s0, s1, s2));
    ((Blend(s0, v0.level, s1, v1.level, s2, v2.level, Centre(p)) + area / 2) / area) % 256
  }

  /** The modulating colour is the exact interpolation at the pixel centre, rounded to nearest; the
      8-bit cast never wraps. */
  lemma DivisionSampleNearest(v0: Corner, v1: Corner, v2: Corner, p: Point)
    requires Covers(Doubled(v0.pos), Doubled(v1.pos), Doubled(v2.pos), Centre(p))
    requires Channel(v0.level) && Channel(v1.level) && Channel(v2.level)
    ensures var s0, s1, s2 := Doubled(v0.pos), Doubled(v1.pos), Doubled(v2.pos);
            2 * Abs(Abs(Edge(s0, s1, s2)) * DivisionSample(v0, v1, v2, p)
                    - Blend(s0, v0.level, s1, v1.level, s2, v2.level, Centre(p))) <= Abs(Edge(s0, s1, s2))
  {
    var s0, s1, s2 := Doubled(v0.pos), Doubled(v1.pos), Doubled(v2.pos);
    BlendInRange(s0, v0.level, s1, v1.level, s2, v2.level, Centre(p));
    RoundedQuotient(Blend(s0, v0.level, s1, v1.level, s2, v2.level, Centre(p)), Abs(Edge(s0, s1, s2)));
  }

  /** Vertex order changes nothing at all about the modulating colour. */
  lemma DivisionSampleIgnoresOrder(u0: Corner, u1: Corner, u2: Corner, v0: Corner, v1: Corner, v2: Corner, p: Point)
    requires Rearranged(u0, u1, u2, v0, v1, v2)
    requires Edge(Doubled(v0.pos), Doubled(v1.pos), Doubled(v2.pos)) != 0
    ensures Edge(Doubled(u0.pos), Doubled(u1.pos), Doubled(u2.pos)) != 0
    ensures DivisionSample(u0, u1, u2, p) == DivisionSample(v0, v1, v2, p)
  {
    BlendIgnoresOrder(u0.(pos := Doubled(u0.pos)), u1.(pos := Doubled(u1.pos)), u2.(pos := Doubled(u2.pos)),
                      v0.(pos := Doubled(v0.pos)), v1.(pos := Doubled(v1.pos)), v2.(pos := Doubled(v2.pos)), Centre(p));
  }

  lemma RoundedQuotient(x: nat, n: nat)
    requires 0 < n && x <= 255 * n
    ensures var q := (x + n / 2) / n; 2 * Abs(n * q - x) <= n && 0 <= q <= 255
  {
    var q := (x + n / 2) / n;
    FloorDiv(x + n / 2, n);
    MulSum(n, q, 1);
    if q > 255 { MulMono(256, q, n); }
    if q < 0 { MulMono(q, -1, n); }
  }
}
