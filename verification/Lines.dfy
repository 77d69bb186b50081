/** The line drawer: a 32.32 fixed-point walk along the major axis with a 1024-unit bias, and 12-bit
    colour accumulators.

    `LineShape` and `ChannelPath` say what the biases buy: both end points are hit, each minor
    coordinate is the nearest integer to the exact line, and no colour leaves the range of the ends.
 */
module Lines {
  import opened Arith
  import opened Edges
  import opened Coverage
  import opened Attributes
  import opened Raster

  const ONE := 0x1_0000_0000 // 1.0 in 32.32
  const HALF := 0x8000_0000
  const BIAS := 1024

  /** Division as in C: towards zero. */
  function TruncDiv(n: int, d: int): int
    requires d > 0
  {
    if n >= 0 then n / d else -(-n / d)
  }

  /** End points after the swap that makes x0 < x1 (or exchanges the ends of a vertical line). */
  datatype Line = Line(a: Point, ca: Rgb, b: Point, cb: Rgb) {
    function K(): nat {
      var ax, ay := Abs(b.x - a.x), Abs(b.y - a.y);
      if ax > ay then ax else ay
    }
    predicate Valid() { ca.Valid() && cb.Valid() }
    predicate TooLong() { Abs(b.x - a.x) >= MAX_PRIMITIVE_WIDTH || Abs(b.y - a.y) >= MAX_PRIMITIVE_HEIGHT }
    function Ordered(): Line { if a.x >= b.x then Line(b, cb, a, ca) else this }
  }

  /** Increment per step of a coordinate that moves by delta in k steps: rounded away from zero. */
  function Increment(delta: int, k: nat): int
    requires k > 0
  {
    TruncDiv(delta * ONE - (if delta < 0 then k - 1 else 0) + (if delta > 0 then k - 1 else 0), k)
  }

  function XAt(line: Line, i: nat): int
    requires line.K() > 0
  {
    (line.a.x * ONE + HALF - BIAS + i * Increment(line.b.x - line.a.x, line.K())) / ONE
  }

  function YAt(line: Line, i: nat): int
    requires line.K() > 0
  {
    var dydk := Increment(line.b.y - line.a.y, line.K());
    (line.a.y * ONE + HALF - (if dydk < 0 then BIAS else 0) + i * dydk) / ONE
  }

  function ChannelAt(c0: int, c1: int, k: nat, i: nat): int
    requires k > 0
  {
    (c0 * 4096 + 2048 + i * TruncDiv((c1 - c0) * 4096, k)) / 4096 % 256
  }

  datatype Spot = Spot(pos: Point, colour: Rgb)

  function SpotAt(line: Line, i: nat): Spot
    requires line.K() > 0
  {
    Spot(Point(XAt(line, i), YAt(line, i)),
         Rgb(ChannelAt(line.ca.r, line.cb.r, line.K(), i),
             ChannelAt(line.ca.g, line.cb.g, line.K(), i),
             ChannelAt(line.ca.b, line.cb.b, line.K(), i)))
  }

  /** The pixels of a line before their coordinates are truncated. */
  function Spots(line: Line): (ps: seq<Spot>)
    ensures !line.TooLong() ==> |ps| == line.K() + 1
  {
    if line.TooLong() then []
    else if line.K() == 0 then [Spot(line.a, line.ca)]
    else seq(line.Ordered().K() + 1, i requires 0 <= i => SpotAt(line.Ordered(), i))
  }

  // ---- Geometry ----

  /** Twice k times the distance of v from start + i * delta / k. */
  function Offset(v: int, start: int, delta: int, k: nat, i: nat): int {
    2 * (k * (v - start) - i * delta)
  }

  lemma IncrementError(delta: int, k: int)
    requires 0 < k
    ensures var e := k * Increment(delta, k) - delta * ONE;
            if delta < 0 then -k < e <= 0 else if delta > 0 then 0 <= e < k else e == 0
  {
    if delta < 0 {
      FloorDiv(-delta * ONE + (k - 1), k);
      var q: int := (-delta * ONE + (k - 1)) / k;
      assert Increment(delta, k) == -q;
      MulNegated(k, q);
      MulSum(k, q, 1);
    } else if delta > 0 {
      FloorDiv(delta * ONE + (k - 1), k);
      MulSum(k, (delta * ONE + (k - 1)) / k, 1);
    } else {
      FloorDiv(0, k);
    }
  }

  /** The rounding argument in plain numbers: e is k times the increment's error, v the floor. */
  lemma NearestCore(k: int, i: int, delta: int, e: int, bias: int, v: int, kv: int, ke: int)
    requires 0 < k <= 1023 && 0 <= i <= k && kv == k * v
    requires ONE * kv <= k * HALF - k * bias + i * delta * ONE + ke < ONE * kv + ONE * k
    requires -(1023 * 1023) <= ke <= 1023 * 1023 && 0 <= bias <= BIAS
    ensures -k <= 2 * (kv - i * delta) <= k
    ensures ke < k * bias ==> 2 * (kv - i * delta) < k
    ensures 0 <= ke && bias == 0 ==> -k < 2 * (kv - i * delta)
  {
    MulMono(bias, BIAS, k);
    MulPos(k, bias);
  }

  function CoordinateAt(start: int, delta: int, k: nat, i: nat, bias: int): int
    requires k > 0
  {
    (start * ONE + HALF - bias + i * Increment(delta, k)) / ONE
  }

  /** Every coordinate is the nearest integer to the exact line. A zero bias sends ties up, and a bias
      that outweighs the accumulated error sends them down. */
  lemma CoordinateNearest(start: int, delta: int, k: int, i: int, bias: int)
    requires 0 < k <= 1023 && 0 <= i <= k
    requires bias == BIAS || (bias == 0 && delta >= 0)
    ensures var o := Offset(CoordinateAt(start, delta, k, i, bias), start, delta, k, i);
            if bias == 0 then -k < o <= k else -k <= o < k
  {
    var inc := Increment(delta, k);
    var e := k * inc - delta * ONE;
    IncrementError(delta, k);
    var r := HALF - bias + i * inc;
    var v := CoordinateAt(start, delta, k, i, bias) - start;
    assert ONE * v <= r < ONE * v + ONE;
    ScaledFloor(v, r, k);
    ScaledWalk(i, inc, k, delta, e, bias);
    ErrorBound(i, e, k);
    NearestCore(k, i, delta, e, bias, v, k * v, i * e);
  }

  lemma ScaledFloor(v: int, r: int, k: int)
    requires 0 < k && ONE * v <= r < ONE * v + ONE
    ensures ONE * (k * v) <= k * r < ONE * (k * v) + ONE * k
  {
    MulMono(ONE * v, r, k);
    MulLess(r, ONE * v + ONE, k);
    MulSum(k, ONE * v, ONE);
    MulAssoc(k, ONE, v);
    MulAssoc(ONE, k, v);
  }

  lemma ScaledWalk(i: int, inc: int, k: int, delta: int, e: int, bias: int)
    requires e == k * inc - delta * ONE
    ensures k * (HALF - bias + i * inc) == k * HALF - k * bias + i * delta * ONE + i * e
  {
    MulSum(k, HALF - bias, i * inc);
    MulSum(k, HALF, -bias);
    MulNegated(k, bias);
    MulAssoc(k, i, inc);
    MulAssoc(i, k, inc);
    MulSum(i, delta * ONE, e);
    MulAssoc(i, delta, ONE);
  }

  lemma ErrorBound(i: int, e: int, k: int)
    requires 0 <= i <= k <= 1023 && -k < e < k
    ensures -(1023 * 1023) <= i * e <= 1023 * 1023
    ensures 0 < k ==> i * e < k * BIAS
    ensures 0 <= e ==> 0 <= i * e
  {
    ProductBound(i, e, 1023, 1023);
    if e >= 0 {
      MulMono(i, k, e);
      MulMono(e, BIAS - 1, k);
      MulSum(k, BIAS, -1);
    } else {
      MulNegated(i, e);
      MulPos(i, -e);
      MulPos(k, BIAS);
    }
  }

  /** With a whole step per pixel the walk is exact. */
  lemma WholeStep(start: int, delta: int, k: nat, i: nat, bias: int)
    requires 0 < k && Abs(delta) == k && (bias == 0 || bias == BIAS)
    ensures CoordinateAt(start, delta, k, i, bias) == if delta > 0 then start + i else start - i
  {
    assert k * ONE / k == ONE by { FloorDiv(k * ONE + 0, k); QuotientUnique(k * ONE, k, ONE); }
    QuotientUnique(k * ONE + (k - 1), k, ONE);
    if delta > 0 {
      assert Increment(delta, k) == ONE;
    } else {
      assert Increment(delta, k) == -ONE;
    }
  }

  lemma IncrementSign(delta: int, k: int)
    requires 0 < k < ONE
    ensures Increment(delta, k) < 0 <==> delta < 0
  {
    IncrementError(delta, k);
    var inc := Increment(delta, k);
    if delta < 0 && inc >= 0 { MulPos(k, inc); }
    if delta >= 0 && inc < 0 { MulMono(inc, -1, k); }
  }

  /** Twice the exact line's rounding error, for x and for y, in k-ths of a pixel. */
  function XOffset(l: Line, i: nat): int
    requires l.K() > 0
  {
    Offset(XAt(l, i), l.a.x, l.b.x - l.a.x, l.K(), i)
  }

  function YOffset(l: Line, i: nat): int
    requires l.K() > 0
  {
    Offset(YAt(l, i), l.a.y, l.b.y - l.a.y, l.K(), i)
  }

  /** Pixel i is the nearest one to the exact line on both axes; ties go left in x, and in y the way the line
      runs. */
  predicate Nearest(l: Line, i: nat)
    requires l.K() > 0
  {
    var k: int := l.K();
    && -k <= XOffset(l, i) < k
    && (if l.b.y >= l.a.y then -k < YOffset(l, i) <= k else -k <= YOffset(l, i) < k)
  }

  /** One pixel per step on the major axis; on both axes the nearest integer to the exact line, with
      ties going left in x, and in y the way the line runs. */
  lemma LineShape(l: Line, i: nat)
    requires !l.TooLong() && l.a.x <= l.b.x && i <= l.K() && 0 < l.K()
    ensures l.b.x - l.a.x == l.K() ==> XAt(l, i) == l.a.x + i
    ensures l.b.y - l.a.y == l.K() ==> YAt(l, i) == l.a.y + i
    ensures l.a.y - l.b.y == l.K() ==> YAt(l, i) == l.a.y - i
    ensures Nearest(l, i)
  {
    var k, dx, dy := l.K(), l.b.x - l.a.x, l.b.y - l.a.y;
    IncrementSign(dy, k);
    var bias := if dy < 0 then BIAS else 0;
    assert XAt(l, i) == CoordinateAt(l.a.x, dx, k, i, BIAS);
    assert YAt(l, i) == CoordinateAt(l.a.y, dy, k, i, bias);
    CoordinateNearest(l.a.x, dx, k, i, BIAS);
    CoordinateNearest(l.a.y, dy, k, i, bias);
    if dx == k { WholeStep(l.a.x, dx, k, i, BIAS); }
    if Abs(dy) == k { WholeStep(l.a.y, dy, k, i, bias); }
  }

  /** The walk starts and ends exactly on the end points. */
  lemma LineEnds(l: Line)
    requires !l.TooLong() && l.a.x <= l.b.x && 0 < l.K()
    ensures XAt(l, 0) == l.a.x && YAt(l, 0) == l.a.y
    ensures XAt(l, l.K()) == l.b.x && YAt(l, l.K()) == l.b.y
  {
    var k := l.K();
    LineShape(l, 0);
    LineShape(l, k);
    OffsetZero(XAt(l, 0), l.a.x, l.b.x - l.a.x, k, 0);
    OffsetZero(YAt(l, 0), l.a.y, l.b.y - l.a.y, k, 0);
    OffsetZero(XAt(l, k), l.a.x, l.b.x - l.a.x, k, 1);
    OffsetZero(YAt(l, k), l.a.y, l.b.y - l.a.y, k, 1);
  }

  /** A point of the exact line with whole coordinates is hit exactly. */
  lemma OffsetZero(v: int, start: int, delta: int, k: int, n: int)
    requires 0 < k && 0 <= n && -k <= Offset(v, start, delta, k, n * k) <= k
    ensures v == start + n * delta
  {
    var d := v - start - n * delta;
    assert Offset(v, start, delta, k, n * k) == 2 * (k * d) by {
      MulAssoc(n, k, delta);
      MulAssoc(k, n, delta);
      MulSum(k, v - start, -(n * delta));
      MulNegated(k, n * delta);
      assert n * k * delta == k * (n * delta);
    }
    if d >= 1 { MulMono(1, d, k); }
    if d <= -1 { MulMono(d, -1, k); }
  }

  /** The colour walk: it starts at c0, ends at c1, never leaves the range between them and stays within
      3/4 of a level of the exact ramp. The 8-bit cast never wraps. */
  lemma ChannelPath(c0: int, c1: int, k: int, i: int)
    requires Channel(c0) && Channel(c1) && 0 < k <= 1023 && 0 <= i <= k
    ensures var c := ChannelAt(c0, c1, k, i);
            (if c0 <= c1 then c0 <= c <= c1 else c1 <= c <= c0)
            && 4 * Abs(k * (c - c0) - i * (c1 - c0)) <= 3 * k
    ensures ChannelAt(c0, c1, k, 0) == c0 && ChannelAt(c0, c1, k, k) == c1
  {
    var d := TruncDiv((c1 - c0) * 4096, k);
    RampStep(c0, c1, k, i);
    RampLevel(c0, c1, i * d);
    RampNear(k, i, c1 - c0, i * d, (2048 + i * d) / 4096);
    ChannelEnds(c0, c1, k);
  }

  lemma ChannelEnds(c0: int, c1: int, k: int)
    requires Channel(c0) && Channel(c1) && 0 < k <= 1023
    ensures ChannelAt(c0, c1, k, 0) == c0 && ChannelAt(c0, c1, k, k) == c1
  {
    RampLevel(c0, c1, 0);
    RampStep(c0, c1, k, k);
    RampLevel(c0, c1, k * TruncDiv((c1 - c0) * 4096, k));
  }

  lemma RampLevel(c0: int, c1: int, id: int)
    requires Channel(c0) && Channel(c1)
    requires if c0 <= c1 then 0 <= id <= (c1 - c0) * 4096 else (c1 - c0) * 4096 <= id <= 0
    ensures var c := (c0 * 4096 + 2048 + id) / 4096 % 256;
            c == c0 + (2048 + id) / 4096
            && (if c0 <= c1 then c0 <= c <= c1 else c1 <= c <= c0)
            && (id == 0 ==> c == c0)
            && (Abs(id - (c1 - c0) * 4096) < 1023 ==> c == c1)
  {
    assert (c0 * 4096 + 2048 + id) / 4096 == c0 + (2048 + id) / 4096;
  }

  lemma RampStep(c0: int, c1: int, k: int, i: int)
    requires 0 < k <= 1023 && 0 <= i <= k
    ensures var d, r := TruncDiv((c1 - c0) * 4096, k), c1 - c0;
            (if r >= 0 then 0 <= i * d <= r * 4096 else r * 4096 <= i * d <= 0)
            && (i == k ==> Abs(i * d - r * 4096) < k)
            && Abs(k * (i * d) - i * (r * 4096)) <= 1023 * k
  {
    var r := c1 - c0;
    var m: int := Abs(r) * 4096;
    var q: int := m / k;
    var d: int := TruncDiv(r * 4096, k);
    FloorDiv(m, k);
    MulSum(k, q, 1);
    MulPos(i, q);
    MulMono(i, k, q);
    assert d == if r >= 0 then q else -q;
    MulNegated(i, q);
    // k*i*q = i*m - i*(m - k*q), and the remainder is below k
    var rest := m - q * k;
    RampProduct(k, i, q, m);
    MulPos(i, rest);
    MulMono(i, 1023, rest);
    MulNegated(k, i * q);
    MulNegated(i, m);
  }

  lemma RampProduct(k: int, i: int, q: int, m: int)
    ensures k * (i * q) == i * m - i * (m - q * k)
  {
    MulAssoc(k, i, q);
    MulAssoc(i, k, q);
    MulSum(i, m, -(k * q));
    MulNegated(i, k * q);
  }

  lemma RampNear(k: int, i: int, r: int, id: int, q: int)
    requires 0 < k && q == (2048 + id) / 4096 && Abs(k * id - i * (r * 4096)) <= 1023 * k
    ensures 4 * Abs(k * q - i * r) <= 3 * k
  {
    assert 4096 * q <= 2048 + id <= 4096 * q + 4095;
    MulMono(4096 * q, 2048 + id, k);
    MulMono(2048 + id, 4096 * q + 4095, k);
    MulSum(k, 2048, id);
    MulSum(k, 4096 * q, 4095);
    MulAssoc(k, 4096, q);
    MulAssoc(i, r, 4096);
    RampLinear(k, k * id, k * q, i * r);
  }

  lemma RampLinear(k: int, kid: int, kq: int, ir: int)
    requires 0 < k && Abs(kid - 4096 * ir) <= 1023 * k
    requires 4096 * kq <= 2048 * k + kid <= 4096 * kq + 4095 * k
    ensures 4 * Abs(kq - ir) <= 3 * k
  {
  }

  predicate Between(c: int, c0: int, c1: int) {
    if c0 <= c1 then c0 <= c <= c1 else c1 <= c <= c0
  }

  predicate ColourBetween(c: Rgb, c0: Rgb, c1: Rgb) {
    Between(c.r, c0.r, c1.r) && Between(c.g, c0.g, c1.g) && Between(c.b, c0.b, c1.b)
  }

  /** The whole line: k+1 spots from one end point to the other, with the end colours at the ends, whole
      steps along the major axis, and every colour between the two end colours. */
  lemma LineIsExact(line: Line)
    requires line.Valid() && !line.TooLong()
    ensures var l, ps := line.Ordered(), Spots(line);
            |ps| == line.K() + 1
            && (if line.K() == 0 then ps[0] == Spot(line.a, line.ca)
                else ps[0] == Spot(l.a, l.ca) && ps[line.K()] == Spot(l.b, l.cb))
            && (forall i :: 0 <= i <= line.K() && line.K() > 0 ==>
                  ps[i].pos.x == XAt(l, i) && ps[i].pos.y == YAt(l, i) && Nearest(l, i))
            && (forall i :: 0 <= i < line.K() ==>
                  if Abs(l.b.x - l.a.x) == line.K() then ps[i + 1].pos.x == ps[i].pos.x + 1
                  else Abs(ps[i + 1].pos.y - ps[i].pos.y) == 1)
            && (forall i :: 0 <= i <= line.K() ==> ColourBetween(ps[i].colour, l.ca, l.cb))
  {
    var l := line.Ordered();
    if line.K() > 0 {
      LineEnds(l);
      forall i | 0 <= i <= l.K()
        ensures Nearest(l, i)
        ensures ColourBetween(SpotAt(l, i).colour, l.ca, l.cb)
        ensures i == 0 ==> SpotAt(l, i).colour == l.ca
        ensures i == l.K() ==> SpotAt(l, i).colour == l.cb
      {
        LineShape(l, i);
        ChannelPath(l.ca.r, l.cb.r, l.K(), i);
        ChannelPath(l.ca.g, l.cb.g, l.K(), i);
        ChannelPath(l.ca.b, l.cb.b, l.K(), i);
      }
      forall i | 0 <= i < l.K()
        ensures if Abs(l.b.x - l.a.x) == l.K() then XAt(l, i + 1) == XAt(l, i) + 1
                else Abs(YAt(l, i + 1) - YAt(l, i)) == 1
      {
        LineShape(l, i);
        LineShape(l, i + 1);
      }
    }
  }

  function Reversed(line: Line): Line { Line(line.b, line.cb, line.a, line.ca) }

  /** Which end point comes first does not change the pixels: a slanted line is drawn identically, a
      vertical one through the same pixels in the opposite order. */
  lemma DirectionIrrelevant(line: Line)
    requires line.Valid() && !line.TooLong()
    ensures line.a.x != line.b.x ==> Spots(Reversed(line)) == Spots(line)
    ensures |Spots(Reversed(line))| == |Spots(line)|
    ensures line.a.x == line.b.x ==>
              forall i :: 0 <= i < |Spots(line)| ==>
                Spots(Reversed(line))[i].pos == Spots(line)[|Spots(line)| - 1 - i].pos
  {
    assert line.K() == Reversed(line).K();
    if line.a.x == line.b.x && line.K() > 0 {
      var l, m := line.Ordered(), Reversed(line).Ordered();
      forall i | 0 <= i <= line.K()
        ensures XAt(m, i) == XAt(l, line.K() - i) && YAt(m, i) == YAt(l, line.K() - i)
      {
        LineShape(l, line.K() - i);
        LineShape(m, i);
        VerticalX(l, line.K() - i);
        VerticalX(m, i);
      }
    }
  }

  lemma VerticalX(l: Line, i: nat)
    requires l.a.x == l.b.x && l.K() > 0
    ensures XAt(l, i) == l.a.x
  {
    QuotientUnique(0, l.K(), 0);
    assert i * 0 == 0;
  }

  // ---- Drawing ----

  /** Sign extension of the low 11 bits. */
  function TruncateCoord(v: int): int {
    var w := v % 2048;
    if w >= 1024 then w - 2048 else w
  }

  function Truncated(p: Point): Point { Point(TruncateCoord(p.x), TruncateCoord(p.y)) }

  function PlotSpot(s: Settings, mem: seq<Cell>, spot: Spot, semi: bool): (r: seq<Cell>)
    requires |mem| == VRAM_W * VRAM_H && spot.colour.Valid()
    ensures |r| == |mem|
  {
    var p := Truncated(spot.pos);
    Plot(s, mem, p, if s.dithering then ToCellDithered(spot.colour, p) else ToCell(spot.colour), semi)
  }

  predicate AllValid(spots: seq<Spot>) { forall i :: 0 <= i < |spots| ==> spots[i].colour.Valid() }

  /** Video memory after the spots have been plotted one after the other. */
  function PlotAll(s: Settings, mem: seq<Cell>, spots: seq<Spot>, semi: bool): (r: seq<Cell>)
    requires |mem| == VRAM_W * VRAM_H && AllValid(spots)
    ensures |r| == |mem|
  {
    if spots == [] then mem else
      var n := |spots| - 1;
      PlotSpot(s, PlotAll(s, mem, spots[..n], semi), spots[n], semi)
  }

  lemma SpotsValid(line: Line)
    requires line.Valid()
    ensures AllValid(Spots(line))
  {
  }

  method DrawSpot(canvas: Canvas, spot: Spot, semi: bool)
    requires canvas.Valid() && spot.colour.Valid()
    modifies canvas.vram
    ensures canvas.vram[..] == PlotSpot(canvas.settings, old(canvas.vram[..]), spot, semi)
  {
    var p := Truncated(spot.pos);
    var c := if canvas.settings.dithering then ToCellDithered(spot.colour, p) else ToCell(spot.colour);
    canvas.DrawPixel(p, c, semi);
  }

  /** The accumulators of the walk before step i. */
  datatype Walk = Walk(x: int, y: int, r: int, g: int, b: int) {
    function Pixel(): Spot {
      Spot(Point(x / ONE, y / ONE), Rgb(r / 4096 % 256, g / 4096 % 256, b / 4096 % 256))
    }
    function Plus(d: Walk): Walk { Walk(x + d.x, y + d.y, r + d.r, g + d.g, b + d.b) }
    function Times(i: int): Walk { Walk(i * x, i * y, i * r, i * g, i * b) }
  }

  function Delta(l: Line): Walk
    requires l.K() > 0
  {
    var k := l.K();
    Walk(Increment(l.b.x - l.a.x, k), Increment(l.b.y - l.a.y, k),
         TruncDiv((l.cb.r - l.ca.r) * 4096, k), TruncDiv((l.cb.g - l.ca.g) * 4096, k),
         TruncDiv((l.cb.b - l.ca.b) * 4096, k))
  }

  function Start(l: Line): Walk
    requires l.K() > 0
  {
    Walk(l.a.x * ONE + HALF - BIAS, l.a.y * ONE + HALF - (if Delta(l).y < 0 then BIAS else 0),
         l.ca.r * 4096 + 2048, l.ca.g * 4096 + 2048, l.ca.b * 4096 + 2048)
  }

  lemma WalkSpot(l: Line, i: nat)
    requires l.K() > 0
    ensures Start(l).Plus(Delta(l).Times(i)).Pixel() == SpotAt(l, i)
  {
  }

  lemma WalkNext(s: Walk, d: Walk, i: int)
    ensures s.Plus(d.Times(i + 1)) == s.Plus(d.Times(i)).Plus(d)
    ensures s.Plus(d.Times(0)) == s
  {
    MulSum(d.x, i, 1);
    MulSum(d.y, i, 1);
    MulSum(d.r, i, 1);
    MulSum(d.g, i, 1);
    MulSum(d.b, i, 1);
  }

  lemma PlotNext(s: Settings, was: seq<Cell>, all: seq<Spot>, i: nat, semi: bool)
    requires |was| == VRAM_W * VRAM_H && AllValid(all) && i < |all|
    ensures AllValid(all[..i]) && AllValid(all[..i + 1])
    ensures PlotAll(s, was, all[..i + 1], semi) == PlotSpot(s, PlotAll(s, was, all[..i], semi), all[i], semi)
  {
    assert all[..i + 1][..i] == all[..i];
  }

  /** The fixed-point walk plots exactly the spots that the closed forms describe, in order. */
  method DrawLine(canvas: Canvas, line: Line, semi: bool)
    requires canvas.Valid() && line.Valid()
    modifies canvas.vram
    ensures AllValid(Spots(line))
    ensures canvas.vram[..] == PlotAll(canvas.settings, old(canvas.vram[..]), Spots(line), semi)
  {
    SpotsValid(line);
    ghost var was, all := canvas.vram[..], Spots(line);
    var ax, ay := Abs(line.b.x - line.a.x), Abs(line.b.y - line.a.y);
    var k := if ax > ay then ax else ay;
    if ax >= MAX_PRIMITIVE_WIDTH || ay >= MAX_PRIMITIVE_HEIGHT { return; }
    if k == 0 {
      PlotNext(canvas.settings, was, all, 0, semi);
      DrawSpot(canvas, Spot(line.a, line.ca), semi);
      return;
    }
    DrawWalk(canvas, line.Ordered(), k, semi, all);
  }

  /** The loop of the walk. */
  method DrawWalk(canvas: Canvas, l: Line, k: nat, semi: bool, ghost all: seq<Spot>)
    requires canvas.Valid() && AllValid(all) && k == l.K() > 0
    requires |all| == k + 1 && forall i :: 0 <= i <= k ==> all[i] == SpotAt(l, i)
    modifies canvas.vram
    ensures canvas.vram[..] == PlotAll(canvas.settings, old(canvas.vram[..]), all, semi)
  {
    ghost var was := canvas.vram[..];
    var step, walk := Delta(l), Start(l);
    var i := 0;
    WalkNext(Start(l), step, 0);
    while i <= k
      invariant 0 <= i <= k + 1 && canvas.Valid() && AllValid(all[..i])
      invariant walk == Start(l).Plus(step.Times(i))
      invariant canvas.vram[..] == PlotAll(canvas.settings, was, all[..i], semi)
    {
      WalkSpot(l, i);
      PlotNext(canvas.settings, was, all, i, semi);
      DrawSpot(canvas, walk.Pixel(), semi);
      WalkNext(Start(l), step, i);
      walk := walk.Plus(step);
      i := i + 1;
    }
    assert all[..k + 1] == all;
  }
}
