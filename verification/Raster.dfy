/** The fill loops over video memory: clipping, mask bit, semi-transparency, and the guarantee that a
    primitive reads and writes every cell at most once.
 */
module Raster {
  import opened Arith
  import opened Edges
  import opened Coverage
  import opened Attributes
  import Words

  const VRAM_W := 1024
  const VRAM_H := 512

  /** A 16-bit cell: mask bit, then 5 bits each of blue, green and red. */
  type Cell = Words.Half

  datatype Rgb = Rgb(r: int, g: int, b: int) {
    predicate Valid() { Channel(r) && Channel(g) && Channel(b) }
  }

  function Field(c: Cell, shift: nat): nat
    requires shift > 0
  {
    c / shift % 32
  }

  function Pack(r: int, g: int, b: int): Cell
    requires 0 <= r < 32 && 0 <= g < 32 && 0 <= b < 32
  {
    r + g * 32 + b * 1024
  }

  function ToCell(c: Rgb): Cell
    requires c.Valid()
  {
    Pack(c.r / 8, c.g / 8, c.b / 8)
  }

  const DITHER: seq<seq<int>> := [[-4, 0, -3, 1], [2, -2, 3, -1], [-3, 1, -4, 0], [3, -1, 2, -2]]

  function Dithered(a: int, p: Point): (d: int)
    ensures Channel(d)
  {
    var v := a + DITHER[p.y % 4][p.x % 4];
    if v < 0 then 0 else if v > 255 then 255 else v
  }

  function ToCellDithered(c: Rgb, p: Point): Cell {
    ToCell(Rgb(Dithered(c.r, p), Dithered(c.g, p), Dithered(c.b, p)))
  }

  /** The fields of the GPU that decide what a drawn pixel does to a cell. */
  datatype Settings = Settings(left: nat, top: nat, right: nat, bottom: nat,
                               preserveMasked: bool, forceMask: bool, transparency: nat, dithering: bool) {
    predicate InClip(p: Point) { left <= p.x <= right && top <= p.y <= bottom }
    /** The clip registers have ten bits; rows beyond the memory's 512 wrap round. */
    predicate Valid() { left < VRAM_W && right < VRAM_W && top < 2 * VRAM_H && bottom < 2 * VRAM_H }
  }

  function Mix(mode: nat, back: nat, front: nat): (m: nat)
    ensures m < 32
  {
    var v := match mode
      case 0 => (back + front) / 2
      case 1 => back + front
      case 2 => if back > front then back - front else 0
      case 3 => back + front / 4
      case _ => front;
    if v > 31 then 31 else v
  }

  /** One channel of a semi-transparent pixel, by the mode: the mean rounded down, the sum or the difference as far as
      the channel reaches, or the sum with a quarter. */
  predicate MixedFrom(mode: nat, back: nat, front: nat, m: nat) {
    match mode
    case 0 => 2 * m <= back + front <= 2 * m + 1
    case 1 => m <= 31 && m <= back + front && (m == 31 || m == back + front)
    case 2 => back <= m + front && (m == 0 || m + front == back)
    case 3 => m <= 31 && 4 * m <= 4 * back + front && (m == 31 || 4 * back + front < 4 * m + 4)
    case _ => m == front
  }

  lemma MixMeans(mode: nat, back: nat, front: nat)
    requires back < 32 && front < 32
    ensures MixedFrom(mode, back, front, Mix(mode, back, front))
  {
  }

  /** Red is in the low five bits of a cell, then green, then blue; the mask bit is clear. */
  lemma PackedFields(r: int, g: int, b: int)
    requires 0 <= r < 32 && 0 <= g < 32 && 0 <= b < 32
    ensures var c := Pack(r, g, b);
            Field(c, 1) == r && Field(c, 32) == g && Field(c, 1024) == b && c < 0x8000
  {
    var c := Pack(r, g, b);
    assert c / 32 == g + b * 32 && c / 1024 == b;
  }

  lemma ToCellFields(c: Rgb)
    requires c.Valid()
    ensures var k := ToCell(c);
            Field(k, 1) == c.r / 8 && Field(k, 32) == c.g / 8 && Field(k, 1024) == c.b / 8 && k < 0x8000
  {
    PackedFields(c.r / 8, c.g / 8, c.b / 8);
  }

  /** Setting the mask bit leaves the channels alone. */
  lemma MaskedFields(c: Cell)
    requires c < 0x8000
    ensures Field(c + 0x8000, 1) == Field(c, 1) && Field(c + 0x8000, 32) == Field(c, 32)
    ensures Field(c + 0x8000, 1024) == Field(c, 1024)
  {
  }

  /** The offsets are those of ordered dithering: each bit of the column and of the row, reversed in weight. */
  lemma DitherIsOrdered(x: nat, y: nat)
    requires x < 4 && y < 4
    ensures DITHER[y][x] == -4 + 4 * ((x + y) % 2) + 2 * (y % 2) + (x / 2 + y / 2) % 2
  {
    assert DITHER[0] == [-4, 0, -3, 1] && DITHER[1] == [2, -2, 3, -1];
    assert DITHER[2] == [-3, 1, -4, 0] && DITHER[3] == [3, -1, 2, -2];
  }

  /** Dithering moves a level by that offset, and stops at the ends of the range. */
  lemma DitherMoves(a: int, p: Point)
    requires Channel(a)
    ensures var offset := -4 + 4 * ((p.x % 4 + p.y % 4) % 2) + 2 * (p.y % 4 % 2) + (p.x % 4 / 2 + p.y % 4 / 2) % 2;
            var d := Dithered(a, p);
            (0 < d < 255 ==> d == a + offset) && (d == 0 ==> a + offset <= 0) && (d == 255 ==> a + offset >= 255)
  {
    DitherIsOrdered(p.x % 4, p.y % 4);
  }

  /** One channel, for opaque and semi-transparent pixels: it depends on the same channel of what was there alone. */
  predicate ChannelShows(s: Settings, back: nat, level: nat, semi: bool, m: nat) {
    if semi then MixedFrom(s.transparency, back, level / 8, m) else m == level / 8
  }

  /** What drawing a pixel of this colour does to a cell, channel by channel. */
  predicate Shows(s: Settings, was: Cell, now: Cell, c: Rgb, semi: bool)
    requires c.Valid()
  {
    if s.preserveMasked && was >= 0x8000 then now == was
    else
      && (now >= 0x8000 <==> s.forceMask)
      && ChannelShows(s, Field(was, 1), c.r, semi, Field(now, 1))
      && ChannelShows(s, Field(was, 32), c.g, semi, Field(now, 32))
      && ChannelShows(s, Field(was, 1024), c.b, semi, Field(now, 1024))
  }

  lemma DrawnShows(s: Settings, was: Cell, c: Rgb, semi: bool)
    requires c.Valid()
    ensures Shows(s, was, Drawn1(s, was, ToCell(c), semi), c, semi)
  {
    if !(s.preserveMasked && was >= 0x8000) {
      var k := Front(s, was, ToCell(c), semi);
      FrontShows(s, was, c, semi);
      WithMask(s, k);
      assert Drawn1(s, was, ToCell(c), semi) == Marked(s, k);
    }
  }

  function Marked(s: Settings, c: Cell): Cell { if s.forceMask && c < 0x8000 then c + 0x8000 else c }

  lemma WithMask(s: Settings, c: Cell)
    requires c < 0x8000
    ensures var k := Marked(s, c);
            && (k >= 0x8000 <==> s.forceMask) && Field(k, 1) == Field(c, 1) && Field(k, 32) == Field(c, 32)
            && Field(k, 1024) == Field(c, 1024)
  {
    MaskedFields(c);
  }

  /** The colour before the mask bit is set. */
  lemma FrontShows(s: Settings, was: Cell, c: Rgb, semi: bool)
    requires c.Valid()
    ensures var k := Front(s, was, ToCell(c), semi);
            && k < 0x8000
            && ChannelShows(s, Field(was, 1), c.r, semi, Field(k, 1))
            && ChannelShows(s, Field(was, 32), c.g, semi, Field(k, 32))
            && ChannelShows(s, Field(was, 1024), c.b, semi, Field(k, 1024))
  {
    ToCellFields(c);
    if semi {
      MixMeans(s.transparency, Field(was, 1), c.r / 8);
      MixMeans(s.transparency, Field(was, 32), c.g / 8);
      MixMeans(s.transparency, Field(was, 1024), c.b / 8);
      PackedFields(Mix(s.transparency, Field(was, 1), c.r / 8), Mix(s.transparency, Field(was, 32), c.g / 8),
                   Mix(s.transparency, Field(was, 1024), c.b / 8));
    }
  }

  /** The colour of a pixel once it has been mixed with what was there. */
  function Front(s: Settings, old_: Cell, colour: Cell, semi: bool): Cell {
    if !semi then colour else
      Pack(Mix(s.transparency, Field(old_, 1), Field(colour, 1)),
           Mix(s.transparency, Field(old_, 32), Field(colour, 32)),
           Mix(s.transparency, Field(old_, 1024), Field(colour, 1024)))
  }

  /** What drawing one pixel leaves in its cell. */
  function Drawn1(s: Settings, old_: Cell, colour: Cell, semi: bool): Cell {
    if s.preserveMasked && old_ >= 0x8000 then old_ else
      Marked(s, Front(s, old_, colour, semi))
  }

  function Address(p: Point): (k: nat)
    ensures k < VRAM_W * VRAM_H
  {
    p.y % VRAM_H * VRAM_W + p.x % VRAM_W
  }

  /** Two pixels less than a whole memory apart in both directions never share a cell. */
  lemma AddressInjective(p: Point, q: Point)
    requires Abs(p.x - q.x) < VRAM_W && Abs(p.y - q.y) < VRAM_H && Address(p) == Address(q)
    ensures p == q
  {
    assert p.x % VRAM_W == q.x % VRAM_W && p.y % VRAM_H == q.y % VRAM_H;
    SameResidue(p.x, q.x, VRAM_W);
    SameResidue(p.y, q.y, VRAM_H);
  }

  lemma SameResidue(x: int, y: int, n: nat)
    requires 0 < n && x % n == y % n && Abs(x - y) < n
    ensures x == y
  {
    var d := x / n - y / n;
    assert x - y == n * d by { MulSum(n, x / n, -(y / n)); MulNegated(n, y / n); }
    if d >= 1 { MulMono(1, d, n); }
    if d <= -1 { MulMono(d, -1, n); }
  }

  datatype Triangle = Triangle(v0: Point, c0: Rgb, v1: Point, c1: Rgb, v2: Point, c2: Rgb,
                               semi: bool, dither: bool)
  {
    predicate Valid() { c0.Valid() && c1.Valid() && c2.Valid() }
    /** The pixels this triangle changes. */
    predicate Visible(s: Settings, p: Point) {
      Drawn(v0, v1, v2) && Covers(v0, v1, v2, p) && s.InClip(p)
    }
  }

  function Sampled(t: Triangle, p: Point): (c: Rgb)
    requires 0 < Abs(PlaneArea(t.v0, t.v1, t.v2)) < WORD32
    ensures c.Valid()
  {
    Rgb(Sample(MakePlane(t.v0, t.c0.r, t.v1, t.c1.r, t.v2, t.c2.r), p),
        Sample(MakePlane(t.v0, t.c0.g, t.v1, t.c1.g, t.v2, t.c2.g), p),
        Sample(MakePlane(t.v0, t.c0.b, t.v1, t.c1.b, t.v2, t.c2.b), p))
  }

  function Colour(t: Triangle, s: Settings, p: Point): Cell
    requires 0 < Abs(PlaneArea(t.v0, t.v1, t.v2)) < WORD32
  {
    if t.dither && s.dithering then ToCellDithered(Sampled(t, p), p) else ToCell(Sampled(t, p))
  }

  /** The levels of a drawn pixel before they are cut to five bits. */
  function LevelsOf(t: Triangle, s: Settings, p: Point): (c: Rgb)
    requires Drawn(t.v0, t.v1, t.v2)
    ensures c.Valid()
  {
    DrawnArea(t);
    var c := Sampled(t, p);
    if t.dither && s.dithering then Rgb(Dithered(c.r, p), Dithered(c.g, p), Dithered(c.b, p)) else c
  }

  /** Without dithering every channel of a visible pixel is within 7/8 of a level of the exact interpolation. */
  lemma LevelsAccurate(t: Triangle, s: Settings, p: Point)
    requires t.Valid() && t.Visible(s, p) && !(t.dither && s.dithering)
    ensures var area, c := Abs(Edge(t.v0, t.v1, t.v2)), LevelsOf(t, s, p);
            && 8 * Abs(area * c.r - Blend(t.v0, t.c0.r, t.v1, t.c1.r, t.v2, t.c2.r, p)) < 7 * area
            && 8 * Abs(area * c.g - Blend(t.v0, t.c0.g, t.v1, t.c1.g, t.v2, t.c2.g, p)) < 7 * area
            && 8 * Abs(area * c.b - Blend(t.v0, t.c0.b, t.v1, t.c1.b, t.v2, t.c2.b, p)) < 7 * area
  {
    SampleAccuracy(t.v0, t.c0.r, t.v1, t.c1.r, t.v2, t.c2.r, p);
    SampleAccuracy(t.v0, t.c0.g, t.v1, t.c1.g, t.v2, t.c2.g, p);
    SampleAccuracy(t.v0, t.c0.b, t.v1, t.c1.b, t.v2, t.c2.b, p);
  }

  lemma ColourShows(t: Triangle, s: Settings, p: Point, was: Cell)
    requires Drawn(t.v0, t.v1, t.v2)
    ensures Shows(s, was, Drawn1(s, was, ColourOf(t, s, p), t.semi), LevelsOf(t, s, p), t.semi)
  {
    DrawnShows(s, was, LevelsOf(t, s, p), t.semi);
  }

  lemma DrawnArea(t: Triangle)
    requires Drawn(t.v0, t.v1, t.v2)
    ensures 0 < Abs(PlaneArea(t.v0, t.v1, t.v2)) < WORD32
  {
    DrawnExtent(t.v0, t.v1, t.v2, t.v0);
  }

  function ColourOf(t: Triangle, s: Settings, p: Point): Cell {
    if Drawn(t.v0, t.v1, t.v2) then DrawnArea(t); Colour(t, s, p) else 0
  }

  lemma VisibleAddressInjective(t: Triangle, s: Settings, p: Point, q: Point)
    requires t.Visible(s, p) && t.Visible(s, q) && Address(p) == Address(q)
    ensures p == q
  {
    BoundingBoxMissesNothing(t.v0, t.v1, t.v2, p);
    BoundingBoxMissesNothing(t.v0, t.v1, t.v2, q);
    AddressInjective(p, q);
  }

  /** p comes before (x, y) in scan order. */
  predicate Before(p: Point, x: int, y: int) { p.y < y || (p.y == y && p.x < x) }

  lemma NextInScan(x: int, y: int)
    ensures forall q :: Before(q, x + 1, y) <==> Before(q, x, y) || q == Point(x, y)
  {
    forall q: Point
      ensures Before(q, x + 1, y) <==> Before(q, x, y) || q == Point(x, y)
    {
      assert q == Point(q.x, q.y);
    }
  }

  /** Video memory after one pixel. */
  function Plot(s: Settings, mem: seq<Cell>, p: Point, colour: Cell, semi: bool): (r: seq<Cell>)
    requires |mem| == VRAM_W * VRAM_H
    ensures |r| == |mem|
  {
    if s.InClip(p) then mem[Address(p) := Drawn1(s, mem[Address(p)], colour, semi)] else mem
  }

  class Canvas {
    var vram: array<Cell>
    var settings: Settings

    ghost predicate Valid()
      reads this
    {
      vram.Length == VRAM_W * VRAM_H && settings.Valid()
    }

    constructor (s: Settings)
      requires s.Valid()
      ensures Valid() && fresh(vram) && settings == s
    {
      vram := new Cell[VRAM_W * VRAM_H];
      settings := s;
    }

    method DrawPixel(p: Point, colour: Cell, semi: bool)
      requires Valid()
      modifies vram
      ensures vram[..] == Plot(settings, old(vram[..]), p, colour, semi)
    {
      if p.x < settings.left || p.x > settings.right { return; }
      if p.y < settings.top || p.y > settings.bottom { return; }
      var ux, uy := p.x % VRAM_W, p.y % VRAM_H;
      var k := uy * VRAM_W + ux;
      vram[k] := Drawn1(settings, vram[k], colour, semi);
    }

    /** The state of video memory once every pixel before (x, y) has been visited. */
    ghost predicate Scanned(t: Triangle, was: seq<Cell>, x: int, y: int)
      reads this, vram
    {
      Valid() && |was| == VRAM_W * VRAM_H
      && (forall p :: t.Visible(settings, p) && Before(p, x, y) ==>
            vram[Address(p)] == Drawn1(settings, was[Address(p)], ColourOf(t, settings, p), t.semi))
      && (forall p :: t.Visible(settings, p) && !Before(p, x, y) ==> vram[Address(p)] == was[Address(p)])
      && (forall k :: 0 <= k < |was| && vram[k] != was[k] ==>
            exists p :: t.Visible(settings, p) && Before(p, x, y) && Address(p) == k)
    }

    /** Every visible pixel of the plane is drawn, each into its own cell and exactly once: the cell is
        combined with what it held before the call. All other cells keep their contents. */
    method FillTriangle(t: Triangle)
      requires Valid() && t.Valid()
      modifies vram
      ensures forall p :: t.Visible(settings, p) ==>
                vram[Address(p)] == Drawn1(settings, old(vram[..])[Address(p)], ColourOf(t, settings, p), t.semi)
      ensures forall k :: 0 <= k < vram.Length && vram[k] != old(vram[..])[k] ==>
                exists p :: t.Visible(settings, p) && Address(p) == k
      ensures forall p :: t.Visible(settings, p) ==>
                Shows(settings, old(vram[..])[Address(p)], vram[Address(p)], LevelsOf(t, settings, p), t.semi)
    {
      ghost var was := vram[..];
      if Edge(t.v0, t.v1, t.v2) == 0 { return; }
      if TooLarge(t.v0, t.v1, t.v2) { return; }
      DrawnArea(t);
      var minX, maxX := Min3(t.v0.x, t.v1.x, t.v2.x), Max3(t.v0.x, t.v1.x, t.v2.x);
      var minY, maxY := Min3(t.v0.y, t.v1.y, t.v2.y), Max3(t.v0.y, t.v1.y, t.v2.y);
      forall p | t.Visible(settings, p)
        ensures InBox(t.v0, t.v1, t.v2, p)
      {
        BoundingBoxMissesNothing(t.v0, t.v1, t.v2, p);
      }
      var y := minY;
      while y <= maxY
        invariant minY <= y <= maxY + 1
        invariant Scanned(t, was, minX, y)
      {
        var x := minX;
        while x <= maxX
          invariant minX <= x <= maxX + 1
          invariant Scanned(t, was, x, y)
        {
          PlotIfCovered(t, x, y, was);
          x := x + 1;
        }
        y := y + 1;
      }
      forall p | t.Visible(settings, p)
        ensures Shows(settings, was[Address(p)], vram[Address(p)], LevelsOf(t, settings, p), t.semi)
      {
        ColourShows(t, settings, p, was[Address(p)]);
      }
    }

    /** One round of the inner loop. */
    method PlotIfCovered(t: Triangle, x: int, y: int, ghost was: seq<Cell>)
      requires t.Valid() && Drawn(t.v0, t.v1, t.v2) && Scanned(t, was, x, y)
      modifies vram
      ensures Scanned(t, was, x + 1, y)
    {
      var p := Point(x, y);
      if Covers(t.v0, t.v1, t.v2, p) {
        var colour := ColourOf(t, settings, p);
        DrawPixel(p, colour, t.semi);
      }
      if t.Visible(settings, p) {
        forall q | t.Visible(settings, q) && Address(q) == Address(p)
          ensures q == p
        {
          VisibleAddressInjective(t, settings, p, q);
        }
      }
      NextInScan(x, y);
    }

    /** A quad, drawn as two triangles. If it is convex and neither half is culled, every pixel its four outer edges
        accept is combined with its cell, in the colour of the half that covers it: once, or, when the pixel 512 rows
        away is accepted and inside the clip as well, together with that one, for the two share their cell; the first
        half's pixel then comes first. Nothing else changes. */
    method FillQuad(quad: Quad, ghost neg: bool)
      requires Valid() && quad.Valid()
      modifies vram
      ensures quad.Once(neg) ==> QuadFilled(settings, quad, neg, old(vram[..]), vram[..])
      ensures exists mid :: Painted(settings, quad.First(), old(vram[..]), mid)
                            && Painted(settings, quad.Second(), mid, vram[..])
    {
      ghost var was := vram[..];
      FillTriangle(quad.First());
      ghost var mid := vram[..];
      FillTriangle(quad.Second());
      assert Painted(settings, quad.First(), was, mid) && Painted(settings, quad.Second(), mid, vram[..]);
      if quad.Once(neg) {
        HalvesFill(settings, quad, neg, was, mid, vram[..]);
      }
    }

    /** A quad of one colour: every pixel drawn has exactly that colour. */
    method FillFlatQuad(v0: Point, v1: Point, v2: Point, v3: Point, c: Rgb, semi: bool, ghost neg: bool)
      requires Valid() && c.Valid()
      modifies vram
      ensures QuadOnce(v0, v1, v2, v3, neg) ==>
                FlatFilled(settings, Flat(v0, v1, v2, v3, c, semi), neg, c, old(vram[..]), vram[..])
    {
      ghost var was := vram[..];
      var quad := Flat(v0, v1, v2, v3, c, semi);
      FillQuad(quad, neg);
      if quad.Once(neg) {
        FlatQuad(settings, quad, neg, c, was, vram[..]);
      }
    }
  }

  // ---- Quads over the wrap-around of the memory ----

  /** What filling a triangle does to the memory. */
  ghost predicate Painted(s: Settings, t: Triangle, was: seq<Cell>, now: seq<Cell>) {
    && |was| == |now| == VRAM_W * VRAM_H
    && (forall p :: t.Visible(s, p) ==>
          now[Address(p)] == Drawn1(s, was[Address(p)], ColourOf(t, s, p), t.semi))
    && (forall k :: 0 <= k < |now| && now[k] != was[k] ==> exists p :: t.Visible(s, p) && Address(p) == k)
  }

  /** The one other place whose pixel lands in the same cell, inside the range of the clip registers. */
  function Opposite(p: Point): Point { Point(p.x, if p.y < VRAM_H then p.y + VRAM_H else p.y - VRAM_H) }

  lemma SharedCell(s: Settings, p: Point, q: Point)
    requires s.Valid() && s.InClip(p)
    ensures Address(Opposite(p)) == Address(p)
    ensures s.InClip(q) && Address(q) == Address(p) ==> q == p || q == Opposite(p)
  {
  }

  /** Corners in the order of the command: v1 and v2 are joined by the diagonal. */
  datatype Quad = Quad(v0: Point, c0: Rgb, v1: Point, c1: Rgb, v2: Point, c2: Rgb, v3: Point, c3: Rgb,
                       semi: bool, dither: bool)
  {
    predicate Valid() { c0.Valid() && c1.Valid() && c2.Valid() && c3.Valid() }
    function First(): Triangle { Triangle(v0, c0, v2, c2, v1, c1, semi, dither) }
    function Second(): Triangle { Triangle(v1, c1, v2, c2, v3, c3, semi, dither) }
    ghost predicate Once(neg: bool) { QuadOnce(v0, v1, v2, v3, neg) }
    /** Inside all four outer edges and the clip. */
    predicate Accepted(s: Settings, neg: bool, p: Point) { OuterAccepts(v0, v1, v2, v3, neg, p) && s.InClip(p) }
    predicate InFirst(p: Point) { Covers(v0, v2, v1, p) }
    function ColourAt(s: Settings, p: Point): Cell { ColourOf(if InFirst(p) then First() else Second(), s, p) }
    function Combined(s: Settings, old_: Cell, p: Point): Cell { Drawn1(s, old_, ColourAt(s, p), semi) }
  }

  function Flat(v0: Point, v1: Point, v2: Point, v3: Point, c: Rgb, semi: bool): Quad {
    Quad(v0, c, v1, c, v2, c, v3, c, semi, false)
  }

  /** What the cell of an accepted pixel holds after the quad. */
  function CellAfter(s: Settings, quad: Quad, neg: bool, old_: Cell, p: Point): Cell {
    var q := Opposite(p);
    if !quad.Accepted(s, neg, q) then quad.Combined(s, old_, p)
    else if quad.InFirst(p) then quad.Combined(s, quad.Combined(s, old_, p), q)
    else quad.Combined(s, quad.Combined(s, old_, q), p)
  }

  ghost predicate OnlyAccepted(s: Settings, quad: Quad, neg: bool, was: seq<Cell>, now: seq<Cell>)
    requires |was| == |now|
  {
    forall k :: 0 <= k < |now| && now[k] != was[k] ==> exists p :: quad.Accepted(s, neg, p) && Address(p) == k
  }

  ghost predicate QuadFilled(s: Settings, quad: Quad, neg: bool, was: seq<Cell>, now: seq<Cell>) {
    && |was| == |now| == VRAM_W * VRAM_H
    && (forall p :: quad.Accepted(s, neg, p) ==> now[Address(p)] == CellAfter(s, quad, neg, was[Address(p)], p))
    && OnlyAccepted(s, quad, neg, was, now)
  }

  /** The cell of an accepted pixel shows the colour, channel by channel; with a twin, over a cell that shows it. */
  ghost predicate FlatFilled(s: Settings, quad: Quad, neg: bool, c: Rgb, was: seq<Cell>, now: seq<Cell>)
    requires c.Valid()
  {
    && |was| == |now| == VRAM_W * VRAM_H
    && (forall p :: quad.Accepted(s, neg, p) ==>
          ShowsOnceOrTwice(s, quad.Accepted(s, neg, Opposite(p)), was[Address(p)], now[Address(p)], c, quad.semi))
    && OnlyAccepted(s, quad, neg, was, now)
  }

  ghost predicate ShowsOnceOrTwice(s: Settings, twice: bool, was: Cell, now: Cell, c: Rgb, semi: bool)
    requires c.Valid()
  {
    if twice then exists once: Cell :: Shows(s, was, once, c, semi) && Shows(s, once, now, c, semi)
    else Shows(s, was, now, c, semi)
  }

  /** A pixel of a quad is drawn by exactly one half. */
  lemma HalvesAccept(s: Settings, quad: Quad, neg: bool, p: Point)
    requires quad.Once(neg)
    ensures quad.First().Visible(s, p) <==> quad.Accepted(s, neg, p) && quad.InFirst(p)
    ensures quad.Second().Visible(s, p) <==> quad.Accepted(s, neg, p) && !quad.InFirst(p)
  {
    QuadPartition(quad.v0, quad.v1, quad.v2, quad.v3, neg, p);
  }

  /** A cell no visible pixel lands in keeps its contents. */
  lemma NotPainted(s: Settings, t: Triangle, was: seq<Cell>, now: seq<Cell>, p: Point)
    requires s.Valid() && Painted(s, t, was, now) && s.InClip(p) && !t.Visible(s, p) && !t.Visible(s, Opposite(p))
    ensures now[Address(p)] == was[Address(p)]
  {
    if now[Address(p)] != was[Address(p)] {
      var q :| t.Visible(s, q) && Address(q) == Address(p);
      SharedCell(s, p, q);
    }
  }

  lemma CellFilled(s: Settings, quad: Quad, neg: bool, was: seq<Cell>, mid: seq<Cell>, now: seq<Cell>, p: Point)
    requires s.Valid() && quad.Once(neg) && quad.Accepted(s, neg, p)
    requires Painted(s, quad.First(), was, mid) && Painted(s, quad.Second(), mid, now)
    ensures now[Address(p)] == CellAfter(s, quad, neg, was[Address(p)], p)
  {
    var first, second, q := quad.First(), quad.Second(), Opposite(p);
    HalvesAccept(s, quad, neg, p);
    HalvesAccept(s, quad, neg, q);
    SharedCell(s, p, q);
    if first.Visible(s, p) && first.Visible(s, q) { VisibleAddressInjective(first, s, p, q); }
    if second.Visible(s, p) && second.Visible(s, q) { VisibleAddressInjective(second, s, p, q); }
    if !first.Visible(s, p) && !first.Visible(s, q) { NotPainted(s, first, was, mid, p); }
    if !second.Visible(s, p) && !second.Visible(s, q) { NotPainted(s, second, mid, now, p); }
  }

  /** Filling the two halves one after the other fills the quad. */
  lemma HalvesFill(s: Settings, quad: Quad, neg: bool, was: seq<Cell>, mid: seq<Cell>, now: seq<Cell>)
    requires s.Valid() && quad.Once(neg)
    requires Painted(s, quad.First(), was, mid) && Painted(s, quad.Second(), mid, now)
    ensures QuadFilled(s, quad, neg, was, now)
  {
    forall p | quad.Accepted(s, neg, p)
      ensures now[Address(p)] == CellAfter(s, quad, neg, was[Address(p)], p)
    {
      CellFilled(s, quad, neg, was, mid, now, p);
    }
    forall k | 0 <= k < |now| && now[k] != was[k]
      ensures exists p :: quad.Accepted(s, neg, p) && Address(p) == k
    {
      var half := if mid[k] != was[k] then quad.First() else quad.Second();
      var p :| half.Visible(s, p) && Address(p) == k;
      HalvesAccept(s, quad, neg, p);
    }
  }

  /** A quad whose corners have one colour is drawn in exactly that colour. */
  lemma FlatQuad(s: Settings, quad: Quad, neg: bool, c: Rgb, was: seq<Cell>, now: seq<Cell>)
    requires c.Valid() && quad == Flat(quad.v0, quad.v1, quad.v2, quad.v3, c, quad.semi)
    requires quad.Once(neg) && QuadFilled(s, quad, neg, was, now)
    ensures FlatFilled(s, quad, neg, c, was, now)
  {
    forall p | quad.Accepted(s, neg, p)
      ensures ShowsOnceOrTwice(s, quad.Accepted(s, neg, Opposite(p)), was[Address(p)], now[Address(p)], c, quad.semi)
    {
      FlatColourAt(s, quad, neg, c, p);
      FlatColourAt(s, quad, neg, c, Opposite(p));
      ShownAfter(s, quad.Accepted(s, neg, Opposite(p)), was[Address(p)], c, quad.semi);
    }
  }

  lemma FlatColourAt(s: Settings, quad: Quad, neg: bool, c: Rgb, p: Point)
    requires c.Valid() && quad == Flat(quad.v0, quad.v1, quad.v2, quad.v3, c, quad.semi) && quad.Once(neg)
    ensures quad.Accepted(s, neg, p) ==> quad.ColourAt(s, p) == ToCell(c)
  {
    HalvesAccept(s, quad, neg, p);
    FlatTriangle(quad.First(), s, c, p);
    FlatTriangle(quad.Second(), s, c, p);
  }

  lemma ShownAfter(s: Settings, twice: bool, was: Cell, c: Rgb, semi: bool)
    requires c.Valid()
    ensures var once := Drawn1(s, was, ToCell(c), semi);
            ShowsOnceOrTwice(s, twice, was, if twice then Drawn1(s, once, ToCell(c), semi) else once, c, semi)
  {
    var once := Drawn1(s, was, ToCell(c), semi);
    DrawnShows(s, was, c, semi);
    DrawnShows(s, once, c, semi);
  }

  /** No cell is combined twice when at most 512 rows of the quad are inside the clip. */
  lemma ShortQuadDrawnOnce(s: Settings, quad: Quad, neg: bool, p: Point)
    requires s.Valid() && quad.Once(neg) && quad.Accepted(s, neg, p)
    requires var (top, bottom) := Rows(quad.v0, quad.v1, quad.v2, quad.v3);
             (if bottom < s.bottom then bottom else s.bottom) - (if top > s.top then top else s.top) < VRAM_H
    ensures !quad.Accepted(s, neg, Opposite(p))
  {
    if quad.Accepted(s, neg, Opposite(p)) {
      WithinRows(quad.v0, quad.v1, quad.v2, quad.v3, neg, p);
      WithinRows(quad.v0, quad.v1, quad.v2, quad.v3, neg, Opposite(p));
    }
  }

  /** The rows of the topmost and the lowest corner. */
  function Rows(v0: Point, v1: Point, v2: Point, v3: Point): (int, int) {
    (Min3(v0.y, v1.y, Min3(v2.y, v3.y, v3.y)), Max3(v0.y, v1.y, Max3(v2.y, v3.y, v3.y)))
  }

  lemma WithinRows(v0: Point, v1: Point, v2: Point, v3: Point, neg: bool, p: Point)
    requires QuadOnce(v0, v1, v2, v3, neg) && OuterAccepts(v0, v1, v2, v3, neg, p)
    ensures var (top, bottom) := Rows(v0, v1, v2, v3); top <= p.y <= bottom
  {
    QuadPartition(v0, v1, v2, v3, neg, p);
    if Covers(v0, v2, v1, p) {
      BoundingBoxMissesNothing(v0, v2, v1, p);
    } else {
      BoundingBoxMissesNothing(v1, v2, v3, p);
    }
  }

  /** A quad taller than the memory, in a clip that reaches beyond it: two of its pixels share a cell. */
  lemma TallQuadDrawnTwice()
    ensures var s := Settings(0, 0, 1023, 1023, false, false, 0, false);
            var v0, v1, v2, v3 := Point(0, 0), Point(10, 500), Point(0, 500), Point(5, 1000);
            var quad := Flat(v0, v1, v2, v3, Rgb(0, 0, 0), true);
            var neg, p, q := Winding(v0, v2, v1), Point(4, 300), Point(4, 812);
            && s.Valid() && quad.Once(neg) && q == Opposite(p)
            && quad.Accepted(s, neg, p) && quad.Accepted(s, neg, q)
  {
  }

  ghost predicate QuadOnce(v0: Point, v1: Point, v2: Point, v3: Point, neg: bool) {
    ConvexQuad(v0, v1, v2, v3, neg) && Drawn(v0, v2, v1) && Drawn(v1, v2, v3)
  }

  predicate OuterAccepts(v0: Point, v1: Point, v2: Point, v3: Point, neg: bool, p: Point) {
    Accepts(v0, v2, neg, p) && Accepts(v2, v3, neg, p) && Accepts(v3, v1, neg, p) && Accepts(v1, v0, neg, p)
  }

  lemma FlatTriangle(t: Triangle, s: Settings, c: Rgb, p: Point)
    requires t.c0 == c && t.c1 == c && t.c2 == c && c.Valid() && !t.dither
    ensures t.Visible(s, p) ==> ColourOf(t, s, p) == ToCell(c)
  {
    if t.Visible(s, p) {
      FlatColourExact(t.v0, t.v1, t.v2, c.r, p);
      FlatColourExact(t.v0, t.v1, t.v2, c.g, p);
      FlatColourExact(t.v0, t.v1, t.v2, c.b, p);
    }
  }
}
