/** Video timing: CPU cycles drive a line phase, a scanline counter and the blanking flags. One step may
    cross any number of line and frame boundaries; `Advanced` is its closed form.
 */
module GpuClock {
  import opened Arith

  const CPU_HZ := 33868800
  const HBLANK_START_CLOCK := 2560
  const NTSC_CLOCKS_PER_LINE := 3413
  const PAL_CLOCKS_PER_LINE := 3406
  const FIRST_VBLANK_LINE := 240
  const U32 := 0x1_0000_0000

  datatype VideoMode = Ntsc | Pal {
    function LinesPerFrame(): nat { if Pal? then 314 else 263 }
    function CyclesPerFrame(): nat { if Pal? then CPU_HZ / 50 else CPU_HZ / 60 }
    /** The line phase, in units of 1/lines of a cycle, at which horizontal blanking starts. */
    function HblankPhase(): nat {
      if Pal? then CPU_HZ / 50 * HBLANK_START_CLOCK / PAL_CLOCKS_PER_LINE
      else CPU_HZ / 60 * HBLANK_START_CLOCK / NTSC_CLOCKS_PER_LINE
    }
  }

  function DotclockDivider(hres: nat): nat {
    if hres % 2 == 1 then 7
    else match hres / 2 % 4
      case 0 => 10
      case 1 => 8
      case 2 => 5
      case _ => 4
  }

  /** Pixels in a displayed line; odd codes other than 1 do not occur. */
  function Width(hres: nat): nat {
    match hres
    case 0 => 256
    case 2 => 320
    case 4 => 512
    case 6 => 640
    case 1 => 368
    case _ => 256
  }

  /** At every resolution a line of pixels takes the 2560 video clocks until blanking, 368 pixels a little more. */
  lemma LineOfPixels(hres: nat)
    requires hres == 0 || hres == 1 || hres == 2 || hres == 4 || hres == 6
    ensures Width(hres) * DotclockDivider(hres) == HBLANK_START_CLOCK + if hres == 1 then 16 else 0
  {
  }

  datatype Events = Events(dotclockTicks: nat, hblankCount: nat, vblankStarted: bool, frameEnded: bool)

  datatype Clock = Clock(mode: VideoMode, hres: nat, linePhase: nat, scanline: nat, hblank: bool,
                         frames: nat, dotclockPhase: nat, busyCycles: nat)
  {
    /** The invariant between steps. A change of video mode can break it; a step cannot. */
    predicate Normal() {
      scanline < mode.LinesPerFrame()
      && (if hblank then mode.HblankPhase() <= linePhase < mode.CyclesPerFrame()
          else linePhase < mode.HblankPhase())
    }
    /** Position within the frame; one line is CyclesPerFrame units long. */
    function Position(): nat { scanline * mode.CyclesPerFrame() + linePhase }
    predicate InVblank() { scanline >= FIRST_VBLANK_LINE }
  }

  // ---- Closed form ----

  /** Boundaries of each kind passed from the top of a frame up to and including position t. */
  function LinesBy(m: VideoMode, t: nat): nat { t / m.CyclesPerFrame() }

  function HblanksBy(m: VideoMode, t: nat): nat {
    (t + (m.CyclesPerFrame() - m.HblankPhase())) / m.CyclesPerFrame()
  }

  function FramesBy(m: VideoMode, t: nat): nat { LinesBy(m, t) / m.LinesPerFrame() }

  function VblanksBy(m: VideoMode, t: nat): nat {
    (LinesBy(m, t) + (m.LinesPerFrame() - FIRST_VBLANK_LINE)) / m.LinesPerFrame()
  }

  function End(c: Clock, cycles: nat): nat { c.Position() + cycles * c.mode.LinesPerFrame() }

  function Advanced(c: Clock, cycles: nat): Clock {
    var t, d := End(c, cycles), 7 * DotclockDivider(c.hres);
    c.(linePhase := t % c.mode.CyclesPerFrame(),
       scanline := LinesBy(c.mode, t) % c.mode.LinesPerFrame(),
       hblank := t % c.mode.CyclesPerFrame() >= c.mode.HblankPhase(),
       frames := (c.frames + FramesBy(c.mode, t)) % U32,
       dotclockPhase := (c.dotclockPhase + 11 * cycles) % d,
       busyCycles := if c.busyCycles > cycles then c.busyCycles - cycles else 0)
  }

  lemma HblanksMonotone(m: VideoMode, s: nat, t: nat)
    requires s <= t
    ensures HblanksBy(m, s) <= HblanksBy(m, t)
  {
    var f, d := m.CyclesPerFrame(), m.CyclesPerFrame() - m.HblankPhase();
    DivMonotone(s + d, t + d, f);
  }

  function EventsOf(c: Clock, cycles: nat): Events {
    var t, d := End(c, cycles), 7 * DotclockDivider(c.hres);
    HblanksMonotone(c.mode, c.Position(), t);
    Events((c.dotclockPhase + 11 * cycles) / d,
           HblanksBy(c.mode, t) - HblanksBy(c.mode, c.Position()),
           VblanksBy(c.mode, t) > VblanksBy(c.mode, c.Position()),
           FramesBy(c.mode, t) > 0)
  }

  // ---- The stepping loop ----

  /** A normal clock on line number l of the frame (l may run past the frame's end). */
  lemma WhereItIs(m: VideoMode, l: nat, phase: nat, hblank: bool)
    requires if hblank then m.HblankPhase() <= phase < m.CyclesPerFrame() else phase < m.HblankPhase()
    ensures var t := l * m.CyclesPerFrame() + phase;
            LinesBy(m, t) == l && t % m.CyclesPerFrame() == phase
            && HblanksBy(m, t) == l + (if hblank then 1 else 0)
            && (hblank <==> t % m.CyclesPerFrame() >= m.HblankPhase())
  {
    var f, h := m.CyclesPerFrame(), m.HblankPhase();
    HblankWithinLine(m);
    Located(l, f, h, phase);
  }

  lemma HblankWithinLine(m: VideoMode)
    ensures 400 < m.LinesPerFrame() + 200 < m.HblankPhase()
    ensures m.HblankPhase() + m.LinesPerFrame() < m.CyclesPerFrame()
  {
  }

  lemma Located(l: nat, f: nat, h: nat, phase: nat)
    requires phase < f && h <= f
    ensures (l * f + phase) / f == l && (l * f + phase) % f == phase
    ensures (l * f + phase + (f - h)) / f == l + (if phase >= h then 1 else 0)
  {
    QuotientUnique(l * f + phase, f, l);
    if phase >= h {
      MulSum(f, l, 1);
      QuotientUnique(l * f + phase + (f - h), f, l + 1);
    } else {
      QuotientUnique(l * f + phase + (f - h), f, l);
    }
  }

  /** Passing to the next line: which counters of lines move. */
  lemma NextLine(l: nat, lines: nat)
    requires FIRST_VBLANK_LINE < lines
    ensures var s := l % lines + 1;
            (l + 1) % lines == (if s >= lines then 0 else s)
            && (l + 1) / lines == l / lines + (if s >= lines then 1 else 0)
            && (l + 1 + (lines - FIRST_VBLANK_LINE)) / lines
               == (l + (lines - FIRST_VBLANK_LINE)) / lines + (if s == FIRST_VBLANK_LINE then 1 else 0)
  {
    AddDivMod(l, lines, 1);
    AddDivMod(l, lines, lines - FIRST_VBLANK_LINE);
    AddDivMod(l, lines, lines - FIRST_VBLANK_LINE + 1);
  }

  /** What the ends of lines update. */
  datatype Tally = Tally(scanline: nat, frames: nat, vblankStarted: bool, frameEnded: bool)

  function LineEnd(lines: nat, t: Tally): Tally {
    var s := t.scanline + 1;
    Tally(if s >= lines then 0 else s,
          if s >= lines then (t.frames + 1) % U32 else t.frames,
          t.vblankStarted || s == FIRST_VBLANK_LINE,
          t.frameEnded || s >= lines)
  }

  function LineEnds(lines: nat, t: Tally, n: nat): Tally {
    if n == 0 then t else LineEnd(lines, LineEnds(lines, t, n - 1))
  }

  /** The same by division: the clock has come from line s to line l of the frame it started in. */
  function TallyAt(lines: nat, s: nat, frames: nat, l: nat): Tally
    requires FIRST_VBLANK_LINE < lines
  {
    var shift := lines - FIRST_VBLANK_LINE;
    Tally(l % lines, (frames + l / lines) % U32, (l + shift) / lines > (s + shift) / lines, l / lines > 0)
  }

  lemma TallyNext(lines: nat, s: nat, frames: nat, l: nat)
    requires FIRST_VBLANK_LINE < lines && s <= l
    ensures TallyAt(lines, s, frames, l + 1) == LineEnd(lines, TallyAt(lines, s, frames, l))
  {
    var shift := lines - FIRST_VBLANK_LINE;
    NextLine(l, lines);
    DivMonotone(s + shift, l + shift, lines);
    DivMonotone(0, l, lines);
    LineEndCounts(lines, l % lines, frames, l / lines, (l + shift) / lines, (s + shift) / lines);
  }

  lemma LineEndCounts(lines: nat, r: nat, frames: nat, q: int, v: int, v0: int)
    requires 0 <= q && v0 <= v
    ensures var s := r + 1;
            LineEnd(lines, Tally(r, (frames + q) % U32, v > v0, q > 0))
            == Tally(if s >= lines then 0 else s, (frames + (q + if s >= lines then 1 else 0)) % U32,
                     v + (if s == FIRST_VBLANK_LINE then 1 else 0) > v0,
                     q + (if s >= lines then 1 else 0) > 0)
  {
  }

  /** Ending n lines one by one, against the counts of lines passed in all. */
  lemma {:induction false} LineEndsClosed(lines: nat, s: nat, frames: nat, n: nat)
    requires FIRST_VBLANK_LINE < lines && s < lines && frames < U32
    ensures LineEnds(lines, Tally(s, frames, false, false), n) == TallyAt(lines, s, frames, s + n)
  {
    if n == 0 {
      SmallDivMod(s, lines);
    } else {
      LineEndsClosed(lines, s, frames, n - 1);
      TallyNext(lines, s, frames, s + n - 1);
    }
  }

  /** The phase that n whole lines take up. */
  function LineUnits(perLine: nat, n: nat): nat {
    if n == 0 then 0 else LineUnits(perLine, n - 1) + perLine
  }

  lemma {:induction false} LineUnitsProduct(perLine: nat, n: nat)
    ensures LineUnits(perLine, n) == n * perLine
  {
    if n > 0 { LineUnitsProduct(perLine, n - 1); MulSum(perLine, n - 1, 1); }
  }

  class VideoClock {
    var mode: VideoMode
    var hres: nat
    var linePhase: nat
    var scanline: nat
    var hblank: bool
    var frames: nat
    var dotclockPhase: nat
    var busyCycles: nat

    function State(): Clock
      reads this
    {
      Clock(mode, hres, linePhase, scanline, hblank, frames, dotclockPhase, busyCycles)
    }

    constructor (mode: VideoMode)
      ensures State() == Clock(mode, 0, 0, 0, false, 0, 0, 0) && State().Normal()
    {
      this.mode := mode;
      hres, linePhase, scanline, hblank, frames, dotclockPhase, busyCycles := 0, 0, 0, false, 0, 0, 0;
    }

    /** The loop over boundaries; n is the number of lines it ends. */
    method AdvancePhase(amount: nat) returns (hblankCount: nat, vblankStarted: bool, frameEnded: bool, ghost n: nat)
      requires State().Normal() && frames < U32
      modifies this`linePhase, this`scanline, this`hblank, this`frames
      ensures State().Normal() && frames < U32
      ensures LineUnits(mode.CyclesPerFrame(), n) + linePhase == old(linePhase) + amount
      ensures Tally(scanline, frames, vblankStarted, frameEnded)
              == LineEnds(mode.LinesPerFrame(), Tally(old(scanline), old(frames), false, false), n)
      ensures hblankCount + (if old(hblank) then 1 else 0) == n + (if hblank then 1 else 0)
    {
      var lines, frameCycles := mode.LinesPerFrame(), mode.CyclesPerFrame();
      var phaseAdvance := amount;
      hblankCount, vblankStarted, frameEnded, n := 0, false, false, 0;
      HblankWithinLine(mode);
      while phaseAdvance > 0
        invariant State().Normal() && frames < U32 && 0 <= phaseAdvance
        invariant LineUnits(frameCycles, n) + linePhase + phaseAdvance == old(linePhase) + amount
        invariant Tally(scanline, frames, vblankStarted, frameEnded)
                  == LineEnds(lines, Tally(old(scanline), old(frames), false, false), n)
        invariant hblankCount + (if old(hblank) then 1 else 0) == n + (if hblank then 1 else 0)
        decreases phaseAdvance
      {
        var target := if hblank then frameCycles else mode.HblankPhase();
        var phaseLeft := target - linePhase;
        if phaseAdvance < phaseLeft {
          linePhase := linePhase + phaseAdvance;
          phaseAdvance := 0;
          break;
        }
        linePhase := target;
        phaseAdvance := phaseAdvance - phaseLeft;
        if !hblank {
          hblank := true;
          hblankCount := hblankCount + 1;
          continue;
        }
        linePhase := 0;
        hblank := false;
        scanline := scanline + 1;
        if scanline == FIRST_VBLANK_LINE { vblankStarted := true; }
        if scanline >= lines {
          scanline := 0;
          frames := (frames + 1) % U32;
          frameEnded := true;
        }
        n := n + 1;
      }
    }

    /** One step equals its closed form, whatever number of boundaries it crosses. */
    method Step(cycles: nat) returns (events: Events)
      requires State().Normal() && frames < U32
      modifies this
      ensures State() == Advanced(old(State()), cycles)
      ensures events == EventsOf(old(State()), cycles)
      ensures State().Normal() && frames < U32
    {
      var denominator := 7 * DotclockDivider(hres);
      ghost var was := State();
      if busyCycles > cycles { busyCycles := busyCycles - cycles; } else { busyCycles := 0; }
      dotclockPhase := dotclockPhase + cycles * 11;
      var dotclockTicks := dotclockPhase / denominator;
      dotclockPhase := dotclockPhase % denominator;
      var hblankCount, vblankStarted, frameEnded, n := AdvancePhase(cycles * mode.LinesPerFrame());
      LineUnitsProduct(mode.CyclesPerFrame(), n);
      WalkIsClosedForm(was, State(), cycles, n, Tally(scanline, frames, vblankStarted, frameEnded), hblankCount);
      events := Events(dotclockTicks, hblankCount, vblankStarted, frameEnded);
    }
  }

  /** Joining the loop's account with the closed form. */
  lemma WalkIsClosedForm(was: Clock, now: Clock, cycles: nat, n: nat, t: Tally, hblankCount: nat)
    requires was.Normal() && now.Normal() && was.mode == now.mode && was.frames < U32
    requires n * was.mode.CyclesPerFrame() + now.linePhase == was.linePhase + cycles * was.mode.LinesPerFrame()
    requires t == LineEnds(was.mode.LinesPerFrame(), Tally(was.scanline, was.frames, false, false), n)
    requires now.scanline == t.scanline && now.frames == t.frames
    requires hblankCount + (if was.hblank then 1 else 0) == n + (if now.hblank then 1 else 0)
    ensures var a, e := Advanced(was, cycles), EventsOf(was, cycles);
            a.linePhase == now.linePhase && a.scanline == now.scanline && a.hblank == now.hblank
            && a.frames == now.frames && e.hblankCount == hblankCount
            && e.vblankStarted == t.vblankStarted && e.frameEnded == t.frameEnded
  {
    EndOfWalk(was, now, cycles, n);
    CountersMatch(was, cycles, n, t);
  }

  lemma CountersMatch(was: Clock, cycles: nat, n: nat, t: Tally)
    requires was.Normal() && was.frames < U32
    requires LinesBy(was.mode, was.Position()) == was.scanline
    requires LinesBy(was.mode, End(was, cycles)) == was.scanline + n
    requires t == LineEnds(was.mode.LinesPerFrame(), Tally(was.scanline, was.frames, false, false), n)
    ensures var a, e := Advanced(was, cycles), EventsOf(was, cycles);
            a.scanline == t.scanline && a.frames == t.frames
            && e.vblankStarted == t.vblankStarted && e.frameEnded == t.frameEnded
  {
    LineEndsClosed(was.mode.LinesPerFrame(), was.scanline, was.frames, n);
  }

  lemma EndOfWalk(was: Clock, now: Clock, cycles: nat, n: nat)
    requires was.Normal() && now.Normal() && was.mode == now.mode
    requires n * was.mode.CyclesPerFrame() + now.linePhase == was.linePhase + cycles * was.mode.LinesPerFrame()
    ensures var m, t, t0 := was.mode, End(was, cycles), was.Position();
            LinesBy(m, t0) == was.scanline && LinesBy(m, t) == was.scanline + n
            && t % m.CyclesPerFrame() == now.linePhase
            && (now.hblank <==> t % m.CyclesPerFrame() >= m.HblankPhase())
            && HblanksBy(m, t) - HblanksBy(m, t0)
               == n + (if now.hblank then 1 else 0) - (if was.hblank then 1 else 0)
  {
    var m := was.mode;
    MulSum(m.CyclesPerFrame(), was.scanline, n);
    WhereItIs(m, was.scanline + n, now.linePhase, now.hblank);
    WhereItIs(m, was.scanline, was.linePhase, was.hblank);
  }

  lemma SmallDivMod(x: nat, n: nat)
    requires x < n
    ensures x / n == 0 && x % n == x
  {
    QuotientUnique(x, n, 0);
  }

  // ---- Splitting a step ----

  function Joined(e: Events, f: Events): Events {
    Events(e.dotclockTicks + f.dotclockTicks, e.hblankCount + f.hblankCount,
           e.vblankStarted || f.vblankStarted, e.frameEnded || f.frameEnded)
  }

  /** Whole frames ahead: every count moves by its number per frame. */
  lemma FramesAhead(m: VideoMode, t: nat, q: nat)
    ensures var u := t + q * (m.LinesPerFrame() * m.CyclesPerFrame());
            LinesBy(m, u) == LinesBy(m, t) + q * m.LinesPerFrame()
            && HblanksBy(m, u) == HblanksBy(m, t) + q * m.LinesPerFrame()
            && FramesBy(m, u) == FramesBy(m, t) + q && VblanksBy(m, u) == VblanksBy(m, t) + q
            && u % m.CyclesPerFrame() == t % m.CyclesPerFrame()
            && LinesBy(m, u) % m.LinesPerFrame() == LinesBy(m, t) % m.LinesPerFrame()
  {
    var lines, f := m.LinesPerFrame(), m.CyclesPerFrame();
    ShiftedCounts(t, q, lines, f, f - m.HblankPhase(), lines - FIRST_VBLANK_LINE);
  }

  lemma ShiftedCounts(t: nat, q: nat, lines: nat, f: nat, d: nat, v: nat)
    requires 0 < lines && 0 < f
    ensures var u, l := t + q * (lines * f), t / f;
            u / f == l + q * lines && u % f == t % f
            && (u + d) / f == (t + d) / f + q * lines
            && (l + q * lines) / lines == l / lines + q && (l + q * lines) % lines == l % lines
            && (l + q * lines + v) / lines == (l + v) / lines + q
  {
    MulAssoc(q, lines, f);
    AddMultiple(t, f, q * lines);
    AddMultiple(t + d, f, q * lines);
    AddMultiple(t / f, lines, q);
    AddMultiple(t / f + v, lines, q);
  }

  /** The clock after a step stands at the step's end, less the whole frames that have gone by. */
  lemma PositionAfter(c: Clock, n: nat)
    requires c.Normal()
    ensures var t, a, m := End(c, n), Advanced(c, n), c.mode;
            a.Normal() && a.Position() + FramesBy(m, t) * (m.LinesPerFrame() * m.CyclesPerFrame()) == t
  {
    var t, m := End(c, n), c.mode;
    HblankWithinLine(m);
    SplitPosition(t, m.LinesPerFrame(), m.CyclesPerFrame());
  }

  lemma SplitPosition(t: nat, lines: nat, f: nat)
    requires 0 < lines && 0 < f
    ensures t / f % lines * f + t % f + t / f / lines * (lines * f) == t
  {
    var l := t / f;
    assert t == l * f + t % f;
    assert l == l / lines * lines + l % lines;
    MulSum(f, l / lines * lines, l % lines);
    MulAssoc(l / lines, lines, f);
  }

  /** Where two consecutive steps end, against one step of the total. */
  lemma EndsMeet(c: Clock, m: nat, n: nat)
    requires c.Normal()
    ensures var a, mode := Advanced(c, m), c.mode;
            var frame := FramesBy(mode, End(c, m)) * (mode.LinesPerFrame() * mode.CyclesPerFrame());
            End(c, m) == a.Position() + frame && End(c, m + n) == End(a, n) + frame
  {
    PositionAfter(c, m);
    MulSum(c.mode.LinesPerFrame(), m, n);
  }

  lemma ClockSplit(c: Clock, m: nat, n: nat)
    requires c.Normal() && c.frames < U32
    ensures Advanced(c, m + n) == Advanced(Advanced(c, m), n)
  {
    var a := Advanced(c, m);
    EndsMeet(c, m, n);
    FramesAhead(c.mode, End(a, n), FramesBy(c.mode, End(c, m)));
    DotclockSplit(c.dotclockPhase, 11 * m, 11 * n, 7 * DotclockDivider(c.hres));
    FrameCounterSplit(c.frames, FramesBy(c.mode, End(c, m)), FramesBy(c.mode, End(a, n)));
  }

  lemma FrameCounterSplit(frames: nat, q: nat, r: nat)
    ensures ((frames + q) % U32 + r) % U32 == (frames + (r + q)) % U32
  {
  }

  lemma DotclockSplit(p: nat, x: nat, y: nat, d: nat)
    requires 0 < d
    ensures (p + x + y) / d == (p + x) / d + ((p + x) % d + y) / d
    ensures (p + x + y) % d == ((p + x) % d + y) % d
  {
    var z := p + x;
    assert z == z / d * d + z % d;
    AddMultiple(z % d + y, d, z / d);
  }

  /** Counts never go down along the frame. */
  lemma CountsMonotone(m: VideoMode, s: nat, t: nat)
    requires s <= t
    ensures LinesBy(m, s) <= LinesBy(m, t)
    ensures VblanksBy(m, s) <= VblanksBy(m, t)
    ensures FramesBy(m, s) <= FramesBy(m, t)
  {
    var lines, v := m.LinesPerFrame(), m.LinesPerFrame() - FIRST_VBLANK_LINE;
    DivMonotone(s, t, m.CyclesPerFrame());
    DivMonotone(LinesBy(m, s), LinesBy(m, t), lines);
    DivMonotone(LinesBy(m, s) + v, LinesBy(m, t) + v, lines);
  }

  lemma EventSplit(c: Clock, m: nat, n: nat)
    requires c.Normal() && c.frames < U32
    ensures EventsOf(c, m + n) == Joined(EventsOf(c, m), EventsOf(Advanced(c, m), n))
  {
    BoundarySplit(c, m, n);
    DotclockSplit(c.dotclockPhase, 11 * m, 11 * n, 7 * DotclockDivider(c.hres));
  }

  lemma BoundarySplit(c: Clock, m: nat, n: nat)
    requires c.Normal()
    ensures var e, f, g := EventsOf(c, m), EventsOf(Advanced(c, m), n), EventsOf(c, m + n);
            g.hblankCount == e.hblankCount + f.hblankCount
            && (g.vblankStarted <==> e.vblankStarted || f.vblankStarted)
            && (g.frameEnded <==> e.frameEnded || f.frameEnded)
  {
    var a, q := Advanced(c, m), FramesBy(c.mode, End(c, m));
    EndsMeet(c, m, n);
    FramesAhead(c.mode, End(a, n), q);
    FramesAhead(c.mode, a.Position(), q);
    CountsMonotone(c.mode, c.Position(), End(c, m));
    CountsMonotone(c.mode, a.Position(), End(a, n));
    CountsMonotone(c.mode, 0, End(c, m));
  }

  /** Any split of the cycles gives the same clock and the same events in total. */
  lemma SplitInvariance(c: Clock, m: nat, n: nat)
    requires c.Normal() && c.frames < U32
    ensures Advanced(c, m).Normal()
    ensures Advanced(c, m + n) == Advanced(Advanced(c, m), n)
    ensures EventsOf(c, m + n) == Joined(EventsOf(c, m), EventsOf(Advanced(c, m), n))
  {
    PositionAfter(c, m);
    ClockSplit(c, m, n);
    EventSplit(c, m, n);
  }

  lemma StaysNormal(c: Clock, n: nat)
    requires c.Normal()
    ensures Advanced(c, n).Normal() && Advanced(c, n).frames < U32
  {
    PositionAfter(c, n);
  }

  /** The vertical blankings that begin in n cycles. */
  function Vblanks(c: Clock, n: nat): int { VblanksBy(c.mode, End(c, n)) - VblanksBy(c.mode, c.Position()) }

  lemma VblanksSplit(c: Clock, m: nat, n: nat)
    requires c.Normal()
    ensures Vblanks(c, m + n) == Vblanks(c, m) + Vblanks(Advanced(c, m), n)
  {
    var a, q := Advanced(c, m), FramesBy(c.mode, End(c, m));
    EndsMeet(c, m, n);
    FramesAhead(c.mode, End(a, n), q);
    FramesAhead(c.mode, a.Position(), q);
  }

  // ---- The next boundary ----

  function CyclesUntilBoundary(c: Clock): nat {
    var target := if c.hblank then c.mode.CyclesPerFrame() else c.mode.HblankPhase();
    if c.linePhase >= target then 1 else
      var lines := c.mode.LinesPerFrame();
      var cycles := (target - c.linePhase + lines - 1) / lines;
      if cycles == 0 then 1 else cycles
  }

  /** No line ends: the clock stays on its line. */
  lemma SameLine(c: Clock, n: nat, hblank: bool)
    requires c.Normal()
    requires var phase := c.linePhase + n * c.mode.LinesPerFrame();
             if hblank then c.mode.HblankPhase() <= phase < c.mode.CyclesPerFrame() else phase < c.mode.HblankPhase()
    requires c.hblank ==> hblank
    ensures Advanced(c, n).hblank == hblank && Advanced(c, n).scanline == c.scanline
    ensures EventsOf(c, n).hblankCount == (if hblank && !c.hblank then 1 else 0)
    ensures !EventsOf(c, n).vblankStarted && !EventsOf(c, n).frameEnded
  {
    WhereItIs(c.mode, c.scanline, c.linePhase, c.hblank);
    WhereItIs(c.mode, c.scanline, c.linePhase + n * c.mode.LinesPerFrame(), hblank);
    SmallDivMod(c.scanline, c.mode.LinesPerFrame());
  }

  /** One line ends and the next has not reached its blanking. */
  lemma LineEndsOnce(c: Clock, n: nat)
    requires c.Normal() && c.hblank
    requires 0 <= c.linePhase + n * c.mode.LinesPerFrame() - c.mode.CyclesPerFrame() < c.mode.HblankPhase()
    ensures !Advanced(c, n).hblank && EventsOf(c, n).hblankCount == 0
    ensures Advanced(c, n).scanline == (c.scanline + 1) % c.mode.LinesPerFrame()
    ensures EventsOf(c, n).vblankStarted <==> Advanced(c, n).scanline == FIRST_VBLANK_LINE
    ensures EventsOf(c, n).frameEnded <==> Advanced(c, n).scanline == 0
  {
    var m, phase := c.mode, c.linePhase + n * c.mode.LinesPerFrame() - c.mode.CyclesPerFrame();
    MulSum(m.CyclesPerFrame(), c.scanline, 1);
    assert End(c, n) == (c.scanline + 1) * m.CyclesPerFrame() + phase;
    WhereItIs(m, c.scanline, c.linePhase, true);
    WhereItIs(m, c.scanline + 1, phase, false);
    SmallDivMod(c.scanline, m.LinesPerFrame());
    NextLine(c.scanline, m.LinesPerFrame());
  }

  lemma BoundaryDistance(c: Clock, n: nat)
    requires c.Normal()
    ensures var lines := c.mode.LinesPerFrame();
            var target := if c.hblank then c.mode.CyclesPerFrame() else c.mode.HblankPhase();
            0 < CyclesUntilBoundary(c)
            && (n < CyclesUntilBoundary(c) ==> c.linePhase + n * lines < target)
            && (n == CyclesUntilBoundary(c) ==> target <= c.linePhase + n * lines < target + lines)
  {
    var target, lines := if c.hblank then c.mode.CyclesPerFrame() else c.mode.HblankPhase(), c.mode.LinesPerFrame();
    var b := (target - c.linePhase + lines - 1) / lines;
    CeilDiv(target - c.linePhase, lines);
    if b == 0 { assert b * lines == 0; }
    if n < b {
      MulMono(n, b - 1, lines);
      MulSum(lines, b, -1);
    }
  }

  /** The boundary is exactly where the query says: nothing changes before it, and at it exactly one
      blanking edge has been passed. */
  lemma BoundaryIsExact(c: Clock, n: nat)
    requires c.Normal()
    ensures 0 < CyclesUntilBoundary(c)
    ensures n < CyclesUntilBoundary(c) ==>
              Advanced(c, n).hblank == c.hblank && Advanced(c, n).scanline == c.scanline
              && EventsOf(c, n).hblankCount == 0 && !EventsOf(c, n).vblankStarted && !EventsOf(c, n).frameEnded
    ensures n == CyclesUntilBoundary(c) && !c.hblank ==>
              Advanced(c, n).hblank && Advanced(c, n).scanline == c.scanline && EventsOf(c, n).hblankCount == 1
              && !EventsOf(c, n).vblankStarted && !EventsOf(c, n).frameEnded
    ensures n == CyclesUntilBoundary(c) && c.hblank ==>
              !Advanced(c, n).hblank && EventsOf(c, n).hblankCount == 0
              && Advanced(c, n).scanline == (c.scanline + 1) % c.mode.LinesPerFrame()
              && (EventsOf(c, n).vblankStarted <==> Advanced(c, n).scanline == FIRST_VBLANK_LINE)
              && (EventsOf(c, n).frameEnded <==> Advanced(c, n).scanline == 0)
  {
    HblankWithinLine(c.mode);
    BoundaryDistance(c, n);
    MulPos(n, c.mode.LinesPerFrame());
    if n < CyclesUntilBoundary(c) {
      SameLine(c, n, c.hblank);
    } else if n == CyclesUntilBoundary(c) {
      if c.hblank { LineEndsOnce(c, n); } else { SameLine(c, n, true); }
    }
  }

  /** Up to the boundary at most one line ends. */
  lemma LinesWithin(c: Clock, n: nat)
    requires c.Normal() && n <= CyclesUntilBoundary(c)
    ensures LinesBy(c.mode, c.Position()) == c.scanline <= LinesBy(c.mode, End(c, n)) <= c.scanline + 1
  {
    var m, phase := c.mode, c.linePhase + n * c.mode.LinesPerFrame();
    HblankWithinLine(m);
    BoundaryDistance(c, n);
    MulPos(n, m.LinesPerFrame());
    WhereItIs(m, c.scanline, c.linePhase, c.hblank);
    if phase < m.CyclesPerFrame() {
      QuotientUnique(c.scanline * m.CyclesPerFrame() + phase, m.CyclesPerFrame(), c.scanline);
    } else {
      MulSum(m.CyclesPerFrame(), c.scanline, 1);
      QuotientUnique(c.scanline * m.CyclesPerFrame() + phase, m.CyclesPerFrame(), c.scanline + 1);
    }
  }

  /** A step up to the boundary begins at most one vertical blanking, and reports it. */
  lemma VblankReported(c: Clock, n: nat)
    requires c.Normal() && n <= CyclesUntilBoundary(c)
    ensures Vblanks(c, n) == if EventsOf(c, n).vblankStarted then 1 else 0
  {
    LinesWithin(c, n);
    NextLine(c.scanline, c.mode.LinesPerFrame());
    CountsMonotone(c.mode, c.Position(), End(c, n));
  }
}
