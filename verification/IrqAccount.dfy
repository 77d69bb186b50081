/** The account of the interrupts that a stretch of the main loop raises: how often each line is asserted, from the
    state at its start, the cycles handed out and the events that fired.
 */
module IrqAccount {
  import opened EventAccount
  import opened Interrupts
  import opened Iteration
  import opened Scheduling
  import opened Slicing
  import opened Cycles
  import G = GpuClock
  import S = SerialPort
  import T = Timer
  import Cd = CdProtocol

  /** How often a source occurs. */
  function CountOf(raised: seq<Source>, s: Source): nat {
    if raised == [] then 0
    else CountOf(raised[..|raised| - 1], s) + if raised[|raised| - 1] == s then 1 else 0
  }

  lemma {:induction false} CountJoins(a: seq<Source>, b: seq<Source>, s: Source)
    ensures CountOf(a + b, s) == CountOf(a, s) + CountOf(b, s)
  {
    if b == [] {
      assert a + b == a;
    } else {
      CountJoins(a, b[..|b| - 1], s);
      assert (a + b)[..|a + b| - 1] == a + b[..|b| - 1];
    }
  }

  lemma CountThree(a: seq<Source>, b: seq<Source>, c: seq<Source>, s: Source)
    ensures CountOf(a + b + c, s) == CountOf(a, s) + CountOf(b, s) + CountOf(c, s)
  {
    CountJoins(a, b, s);
    CountJoins(a + b, c, s);
  }

  /** A line is up afterwards exactly if it was before or its source has raised it. */
  lemma {:induction false} LineUp(l: Lines, raised: seq<Source>, s: Source)
    ensures s in l.After(raised).status <==> s in l.status || CountOf(raised, s) > 0
  {
    if raised != [] {
      var n := |raised| - 1;
      LineUp(l, raised[..n], s);
      assert raised == raised[..n] + [raised[n]];
    }
  }

  // ---- The devices ----

  function VblankStarts(d: Devices, n: nat): nat {
    if n > 0 && G.EventsOf(d.gpu, n).vblankStarted then 1 else 0
  }

  function SerialUp(d: Devices, n: nat): nat { if n > 0 && d.serial.Elapsed(n).irqPending then 1 else 0 }

  /** What a number of ticks amounts to for a counter: its interrupts, or its target hits. */
  type Measure = (T.Counter, nat) -> nat

  ghost predicate Splits(measure: Measure) {
    forall u, m: nat, n: nat :: measure(u, m + n) == measure(u, m) + measure(T.Run(u, m), n)
  }

  /** What a slice amounts to for a counter. */
  function CounterGain(measure: Measure, d: Devices, n: nat, idx: nat): nat
    requires idx < 3
  {
    if n == 0 then 0 else measure(TimerOf(d, idx).count, T.SliceTicks(TimerOf(d, idx), idx, SliceAt(d.gpu, n)))
  }

  lemma IrqsSplit()
    ensures Splits(T.Irqs) && Splits(T.Hits)
  {
    forall u: T.Counter, m: nat, n: nat
      ensures T.Irqs(u, m + n) == T.Irqs(u, m) + T.Irqs(T.Run(u, m), n)
      ensures T.Hits(u, m + n) == T.Hits(u, m) + T.Hits(T.Run(u, m), n)
    {
      T.RunSplits(u, m, n);
      T.HitsSplit(u, m, n);
    }
  }

  /** What the counters assert in a slice, in order. */
  function TimersRaise(t: (T.Unit, T.Unit, T.Unit), s: T.Slice): seq<Source> {
    Copies(Timer0, T.Irqs(t.0.count, T.SliceTicks(t.0, 0, s)))
    + Copies(Timer1, T.Irqs(t.1.count, T.SliceTicks(t.1, 1, s)))
    + Copies(Timer2, T.Irqs(t.2.count, T.SliceTicks(t.2, 2, s)))
  }

  /** What the devices assert in a slice, in order. */
  function SliceRaises(d: Devices, n: nat): seq<Source> {
    if n == 0 then []
    else
      TimersRaise(d.timers, SliceAt(d.gpu, n)) + Copies(Source.Sio, SerialUp(d, n)) + Copies(Vblank, VblankStarts(d, n))
  }

  /** How often the devices assert a source in a slice. */
  function DeviceCount(s: Source, d: Devices, n: nat): nat {
    match s
    case Vblank => VblankStarts(d, n)
    case Sio => SerialUp(d, n)
    case Timer0 => CounterGain(T.Irqs, d, n, 0)
    case Timer1 => CounterGain(T.Irqs, d, n, 1)
    case Timer2 => CounterGain(T.Irqs, d, n, 2)
    case _ => 0
  }

  /** The same over the slices. */
  function DeviceTotal(s: Source, d: Devices, slices: seq<nat>): nat {
    if slices == [] then 0
    else
      var n := |slices| - 1;
      DeviceTotal(s, d, slices[..n]) + DeviceCount(s, AfterSlices(d, slices[..n]), slices[n])
  }

  lemma TotalOneMore(s: Source, d: Devices, slices: seq<nat>, n: nat)
    ensures DeviceTotal(s, d, slices + [n]) == DeviceTotal(s, d, slices) + DeviceCount(s, AfterSlices(d, slices), n)
  {
    assert (slices + [n])[..|slices|] == slices;
  }

  lemma CopiesCount(s: Source, n: nat, t: Source)
    ensures CountOf(Copies(s, n), t) == if t == s then n else 0
  {
    if n > 0 {
      assert Copies(s, n) == Copies(s, n - 1) + [s];
      CopiesCount(s, n - 1, t);
    } else {
      assert Copies(s, 0) == [];
    }
  }

  lemma ThreeCopies(a: nat, b: nat, c: nat, s: Source)
    ensures CountOf(Copies(Timer0, a) + Copies(Timer1, b) + Copies(Timer2, c), s)
            == match s case Timer0 => a case Timer1 => b case Timer2 => c case _ => 0
  {
    CopiesCount(Timer0, a, s);
    CopiesCount(Timer1, b, s);
    CopiesCount(Timer2, c, s);
    CountThree(Copies(Timer0, a), Copies(Timer1, b), Copies(Timer2, c), s);
  }

  lemma TimersCount(t: (T.Unit, T.Unit, T.Unit), sl: T.Slice, s: Source)
    ensures CountOf(TimersRaise(t, sl), s)
            == match s
               case Timer0 => T.Irqs(t.0.count, T.SliceTicks(t.0, 0, sl))
               case Timer1 => T.Irqs(t.1.count, T.SliceTicks(t.1, 1, sl))
               case Timer2 => T.Irqs(t.2.count, T.SliceTicks(t.2, 2, sl))
               case _ => 0
  {
    ThreeCopies(T.Irqs(t.0.count, T.SliceTicks(t.0, 0, sl)), T.Irqs(t.1.count, T.SliceTicks(t.1, 1, sl)),
                T.Irqs(t.2.count, T.SliceTicks(t.2, 2, sl)), s);
  }

  lemma SliceCount(d: Devices, n: nat, s: Source)
    ensures CountOf(SliceRaises(d, n), s) == DeviceCount(s, d, n)
  {
    if n > 0 {
      TimersCount(d.timers, SliceAt(d.gpu, n), s);
      CopiesCount(Source.Sio, SerialUp(d, n), s);
      CopiesCount(Vblank, VblankStarts(d, n), s);
      CountThree(TimersRaise(d.timers, SliceAt(d.gpu, n)), Copies(Source.Sio, SerialUp(d, n)),
                 Copies(Vblank, VblankStarts(d, n)), s);
    }
  }

  // ---- The scheduler ----

  /** The event whose firing asserts a source by itself; 0, which no source has, if there is none. */
  function EventFor(s: Source): nat {
    match s
    case Timer0 => 1
    case Timer1 => 2
    case Timer2 => 3
    case Spu => 5
    case _ => 0
  }

  /** What to count, in which events and when. */
  datatype Watch = Watch(source: Source, events: seq<Event>, now: nat)

  function RaisedSoFar(t: Watch, n: nat): nat {
    if n <= |t.events| then CountOf(RaisedBy(t.events, t.now, n), t.source) else 0
  }

  lemma EventsCount(events: seq<Event>, now: nat, s: Source)
    requires |events| == EVENT_COUNT
    ensures CountOf(RaisedBy(events, now, EVENT_COUNT), s)
            == if EventFor(s) > 0 && Due(events[EventFor(s)], now) then 1 else 0
  {
    var t, k := Watch(s, events, now), if EventFor(s) > 0 then EventFor(s) else -1;
    var up := k > 0 && Due(events[k], now);
    forall i | 0 <= i < EVENT_COUNT
      ensures RisesAt(RaisedSoFar, t, k, up, i)
    {
      OneMoreEvent(events, now, i, s);
    }
    RisesOnce(RaisedSoFar, t, k, up, EVENT_COUNT);
  }

  lemma OneMoreEvent(events: seq<Event>, now: nat, i: nat, s: Source)
    requires i < |events|
    ensures CountOf(RaisedBy(events, now, i + 1), s)
            == CountOf(RaisedBy(events, now, i), s) + if 0 < i == EventFor(s) && Due(events[i], now) then 1 else 0
  {
    OneEventCount(events[i], i, now, s);
    CountJoins(RaisedBy(events, now, i), RaisedOne(events[i], i, now), s);
  }

  lemma OneEventCount(e: Event, i: nat, now: nat, s: Source)
    ensures CountOf(RaisedOne(e, i, now), s) == if 0 < i == EventFor(s) && Due(e, now) then 1 else 0
  {
  }

  function FiringCount(fires: seq<Firing>, s: Source): nat {
    if EventFor(s) > 0 then |FiringsOf(fires, EventFor(s))| else 0
  }

  // ---- A round ----

  /** Everything a round asserts, in order: the events, the devices, the controller. */
  ghost function RoundRaises(disc: Cd.Disc, a: Agenda, now: nat, d: Devices, n: nat): seq<Source>
    requires disc.Valid() && |a.events| == EVENT_COUNT
  {
    RaisedBy(a.events, now, EVENT_COUNT) + SliceRaises(d, n) + Copies(Source.Cdrom, CdRaised(disc, a, now))
  }

  /** How often each source is asserted. */
  function RoundCount(s: Source, d: Devices, n: nat, fired: seq<Firing>, cdRaised: nat): nat {
    DeviceCount(s, d, n) + FiringCount(fired, s) + if s == Source.Cdrom then cdRaised else 0
  }

  lemma RoundCounted(disc: Cd.Disc, a: Agenda, now: nat, b: Agenda, d: Devices, n: nat, fired: seq<Firing>,
                     raised: nat, s: Source)
    requires RoundOf(disc)(a, now, b, fired, raised)
    ensures disc.Valid() && |a.events| == EVENT_COUNT
    ensures CountOf(RoundRaises(disc, a, now, d, n), s) == RoundCount(s, d, n, fired, raised)
  {
    RoundFired(disc, a, now, b, fired, raised, s);
    PartsCount(RaisedBy(a.events, now, EVENT_COUNT), d, n, raised, s);
  }

  lemma RoundFired(disc: Cd.Disc, a: Agenda, now: nat, b: Agenda, fired: seq<Firing>, raised: nat, s: Source)
    requires RoundOf(disc)(a, now, b, fired, raised)
    ensures disc.Valid() && |a.events| == EVENT_COUNT && raised == CdRaised(disc, a, now)
    ensures CountOf(RaisedBy(a.events, now, EVENT_COUNT), s) == FiringCount(fired, s)
  {
    EventsCount(a.events, now, s);
  }

  lemma PartsCount(first: seq<Source>, d: Devices, n: nat, raised: nat, s: Source)
    ensures CountOf(first + SliceRaises(d, n) + Copies(Source.Cdrom, raised), s)
            == CountOf(first, s) + DeviceCount(s, d, n) + if s == Source.Cdrom then raised else 0
  {
    SliceCount(d, n, s);
    CopiesCount(Source.Cdrom, raised, s);
    CountThree(first, SliceRaises(d, n), Copies(Source.Cdrom, raised), s);
  }

  ghost predicate CountedRound(raised: seq<Source>, d: Devices, n: nat, fired: seq<Firing>, cdRaised: nat) {
    forall s :: CountOf(raised, s) == RoundCount(s, d, n, fired, cdRaised)
  }

  /** The same as a function, for the contracts of the loop. */
  ghost function RoundHeard(d: Devices, n: nat, fired: seq<Firing>, cdRaised: nat): seq<Source> -> bool {
    (raised: seq<Source>) => CountedRound(raised, d, n, fired, cdRaised)
  }

  lemma RoundAccounted(disc: Cd.Disc, a: Agenda, now: nat, b: Agenda, d: Devices, n: nat, fired: seq<Firing>)
    requires disc.Valid() && |a.events| == EVENT_COUNT && RoundOf(disc)(a, now, b, fired, CdRaised(disc, a, now))
    ensures RoundHeard(d, n, fired, CdRaised(disc, a, now))(RoundRaises(disc, a, now, d, n))
  {
    forall s
      ensures CountOf(RoundRaises(disc, a, now, d, n), s) == RoundCount(s, d, n, fired, CdRaised(disc, a, now))
    {
      RoundCounted(disc, a, now, b, d, n, fired, CdRaised(disc, a, now), s);
    }
  }

  // ---- The lines as the loop's steps leave them ----

  lemma TimersHeard(l: Lines, t: (T.Unit, T.Unit, T.Unit), s: T.Slice)
    ensures l.After(TimersRaise(t, s))
            == l.After(Copies(Timer0, T.Irqs(t.0.count, T.SliceTicks(t.0, 0, s))))
                .After(Copies(Timer1, T.Irqs(t.1.count, T.SliceTicks(t.1, 1, s))))
                .After(Copies(Timer2, T.Irqs(t.2.count, T.SliceTicks(t.2, 2, s))))
  {
    ThreeHeard(l, Copies(Timer0, T.Irqs(t.0.count, T.SliceTicks(t.0, 0, s))),
               Copies(Timer1, T.Irqs(t.1.count, T.SliceTicks(t.1, 1, s))),
               Copies(Timer2, T.Irqs(t.2.count, T.SliceTicks(t.2, 2, s))));
  }

  lemma ThreeHeard(l: Lines, a: seq<Source>, b: seq<Source>, c: seq<Source>)
    ensures l.After(a).After(b).After(c) == l.After(a + b + c)
  {
    AfterBoth(l, a, b);
    AfterBoth(l, a + b, c);
  }

  lemma SliceHeard(l: Lines, d: Devices, n: nat)
    ensures n == 0 ==> l.After(SliceRaises(d, n)) == l
    ensures n > 0 ==> l.After(SliceRaises(d, n))
                      == l.After(TimersRaise(d.timers, SliceAt(d.gpu, n)))
                          .AfterIf(d.serial.Elapsed(n).irqPending, Source.Sio)
                          .AfterIf(G.EventsOf(d.gpu, n).vblankStarted, Vblank)
  {
    if n == 0 {
      AfterNone(l);
    } else {
      var timers, sio, vblank := TimersRaise(d.timers, SliceAt(d.gpu, n)), SerialUp(d, n), VblankStarts(d, n);
      ThreeHeard(l, timers, Copies(Source.Sio, sio), Copies(Vblank, vblank));
      AfterOne(l.After(timers), d.serial.Elapsed(n).irqPending, Source.Sio);
      AfterOne(l.After(timers).After(Copies(Source.Sio, sio)), G.EventsOf(d.gpu, n).vblankStarted, Vblank);
    }
  }

  lemma CallbackHeard(l: Lines, disc: Cd.Disc, a: Agenda, now: nat, events: seq<Event>, fired: seq<Firing>,
                      cdDue: bool)
    requires disc.Valid() && StepOf()(a, now, events, fired, cdDue)
    ensures |a.events| == EVENT_COUNT
    ensures l.After(Copies(Source.Cdrom, CdRaised(disc, a, now)))
            == if cdDue then l.AfterIf(Cd.OnEvent(a.drive, disc).line == Cd.Raise, Source.Cdrom) else l
  {
    AfterOne(l, cdDue && Cd.OnEvent(a.drive, disc).line == Cd.Raise, Source.Cdrom);
  }

  lemma RoundLines(l: Lines, disc: Cd.Disc, a: Agenda, now: nat, d: Devices, n: nat)
    requires disc.Valid() && |a.events| == EVENT_COUNT
    ensures l.After(RaisedBy(a.events, now, EVENT_COUNT) + SliceRaises(d, n))
             .After(Copies(Source.Cdrom, CdRaised(disc, a, now)))
            == l.After(RoundRaises(disc, a, now, d, n))
  {
    AfterBoth(l, RaisedBy(a.events, now, EVENT_COUNT) + SliceRaises(d, n),
              Copies(Source.Cdrom, CdRaised(disc, a, now)));
  }

  // ---- A run ----

  /** How often each source is asserted in a run. */
  function RunCount(s: Source, d: Devices, slices: seq<nat>, fires: seq<Firing>, cdRaises: nat): nat {
    DeviceTotal(s, d, slices) + FiringCount(fires, s) + if s == Source.Cdrom then cdRaises else 0
  }

  ghost predicate Counted(raised: seq<Source>, d: Devices, slices: seq<nat>, fires: seq<Firing>, cdRaises: nat) {
    forall s :: CountOf(raised, s) == RunCount(s, d, slices, fires, cdRaises)
  }

  lemma NothingRaised(d: Devices)
    ensures Counted([], d, [], [], 0)
  {
  }

  lemma NoCycles(s: Source, d: Devices)
    ensures DeviceCount(s, d, 0) == 0
  {
  }

  /** One more round. */
  lemma RoundAdds(raised: seq<Source>, d: Devices, slices: seq<nat>, fires: seq<Firing>, cdRaises: nat,
                  more: seq<Source>, n: nat, fired: seq<Firing>, cdRaised: nat)
    requires Counted(raised, d, slices, fires, cdRaises)
    requires RoundHeard(AfterSlices(d, slices), n, fired, cdRaised)(more)
    ensures Counted(raised + more, d, if n > 0 then slices + [n] else slices, fires + fired, cdRaises + cdRaised)
  {
    forall s
      ensures CountOf(raised + more, s)
              == RunCount(s, d, if n > 0 then slices + [n] else slices, fires + fired, cdRaises + cdRaised)
    {
      NoCycles(s, AfterSlices(d, slices));
      TotalOneMore(s, d, slices, n);
      FiringsJoin(fires, fired, EventFor(s));
      CountJoins(raised, more, s);
    }
  }

  // ---- What the counts come to ----

  /** The vertical blanking interrupt is raised exactly as often as line 240 begins. */
  lemma VblankTotal(d: Devices, slices: seq<nat>)
    requires Steady(d.gpu) && WithinBoundaries(d, slices)
    ensures DeviceTotal(Vblank, d, slices) == G.Vblanks(d.gpu, Sum(slices))
  {
    AllVblanksAdd(d, slices);
    NoVblanks(d.gpu);
    OverIsTotal(DevicesAfter, VblankStarts, G.Vblanks, d.gpu, d, slices, |slices|);
    assert slices[..|slices|] == slices;
    VblanksOver(d, slices);
  }

  lemma NoVblanks(c: G.Clock)
    ensures G.Vblanks(c, 0) == 0
  {
  }

  lemma {:induction false} VblanksOver(d: Devices, slices: seq<nat>)
    ensures DeviceTotal(Vblank, d, slices) == Over(DevicesAfter, VblankStarts, d, slices)
  {
    if slices != [] { VblanksOver(d, slices[..|slices| - 1]); }
  }

  lemma VblankAt(d: Devices, slices: seq<nat>, k: nat)
    requires Steady(d.gpu) && WithinBoundaries(d, slices) && k < |slices|
    ensures Adds(DevicesAfter, VblankStarts, G.Vblanks, d.gpu, d, slices, k)
  {
    PrefixWithin(d, slices, k);
    VblankStep(d, slices[..k], slices[k]);
  }

  lemma AllVblanksAdd(d: Devices, slices: seq<nat>)
    requires Steady(d.gpu) && WithinBoundaries(d, slices)
    ensures forall k :: 0 <= k < |slices| ==> Adds(DevicesAfter, VblankStarts, G.Vblanks, d.gpu, d, slices, k)
  {
    forall k | 0 <= k < |slices|
      ensures Adds(DevicesAfter, VblankStarts, G.Vblanks, d.gpu, d, slices, k)
    {
      VblankAt(d, slices, k);
    }
  }

  lemma VblankStep(d: Devices, before: seq<nat>, n: nat)
    requires Steady(d.gpu) && WithinBoundaries(d, before)
    requires 0 < n <= G.CyclesUntilBoundary(AfterSlices(d, before).gpu)
    ensures G.Vblanks(d.gpu, Sum(before) + n) == G.Vblanks(d.gpu, Sum(before)) + VblankStarts(AfterSlices(d, before), n)
  {
    WithinPositive(d, before);
    VideoSeesTotal(d, before);
    OneMoreVblank(d, before, n, AfterSlices(d, before));
  }

  lemma OneMoreVblank(d: Devices, before: seq<nat>, n: nat, e: Devices)
    requires Steady(d.gpu) && Steady(e.gpu) && 0 < n <= G.CyclesUntilBoundary(e.gpu)
    requires e.gpu == if before == [] then d.gpu else G.Advanced(d.gpu, Sum(before))
    ensures G.Vblanks(d.gpu, Sum(before) + n) == G.Vblanks(d.gpu, Sum(before)) + VblankStarts(e, n)
  {
    G.VblankReported(e.gpu, n);
    if before != [] {
      G.VblanksSplit(d.gpu, Sum(before), n);
    }
  }

  lemma StaysPending(s: S.Signal, m: nat, n: nat)
    ensures s.Elapsed(m).irqPending ==> s.Elapsed(m + n).irqPending
  {
  }

  /** The serial interrupt is raised in a run exactly if it is pending at the end. */
  lemma {:induction false} SerialTotal(d: Devices, slices: seq<nat>)
    requires AllPositive(slices)
    ensures DeviceTotal(Source.Sio, d, slices) > 0 <==> slices != [] && d.serial.Elapsed(Sum(slices)).irqPending
  {
    if slices != [] {
      var n := |slices| - 1;
      SerialTotal(d, slices[..n]);
      SerialSeesTotal(d, slices[..n]);
      SerialNext(d, AfterSlices(d, slices[..n]), Sum(slices[..n]), slices[n]);
      StaysPending(d.serial, Sum(slices[..n]), slices[n]);
    }
  }

  lemma SerialNext(d: Devices, e: Devices, m: nat, n: nat)
    requires e.serial == d.serial.Elapsed(m) && n > 0
    ensures DeviceCount(Source.Sio, e, n) == if d.serial.Elapsed(m + n).irqPending then 1 else 0
  {
    S.AcknowledgeOnTime(d.serial, m, n);
  }

  lemma CutGain(measure: Measure, u: T.Unit, idx: nat, c: G.Clock, m: nat, n: nat)
    requires Splits(measure) && Steady(c) && 0 < n && m + n <= G.CyclesUntilBoundary(c)
    ensures var s, t := SliceAt(c, m), SliceAt(G.Advanced(c, m), n);
            var v := T.Stepped(u, idx, s);
            measure(u.count, T.SliceTicks(u, idx, SliceAt(c, m + n)))
            == measure(u.count, T.SliceTicks(u, idx, s)) + measure(v.count, T.SliceTicks(v, idx, t))
  {
    var s, t := SliceAt(c, m), SliceAt(G.Advanced(c, m), n);
    CutSlice(c, m, n);
    JoinedGain(measure, u, idx, s, t);
  }

  lemma JoinedGain(measure: Measure, u: T.Unit, idx: nat, s: T.Slice, t: T.Slice)
    requires Splits(measure)
    requires s.hblankCount == 0 && !s.vblankStarted && t.inHblank == s.inHblank && t.inVblank == s.inVblank
    ensures var v := T.Stepped(u, idx, s);
            measure(u.count, T.SliceTicks(u, idx, T.SlicesJoined(s, t)))
            == measure(u.count, T.SliceTicks(u, idx, s)) + measure(v.count, T.SliceTicks(v, idx, t))
  {
    var v := T.Stepped(u, idx, s);
    T.StepWithoutEdge(u, idx, s);
    T.SliceTicksAdd(u, v, idx, s, t);
  }

  // ---- One counter on its own ----

  /** What the slices amount to for a counter. */
  function CounterTotal(measure: Measure, d: Devices, slices: seq<nat>, idx: nat): nat
    requires idx < 3
  {
    if slices == [] then 0
    else
      var n := |slices| - 1;
      CounterTotal(measure, d, slices[..n], idx) + CounterGain(measure, AfterSlices(d, slices[..n]), slices[n], idx)
  }

  lemma {:induction false} TimerTotals(d: Devices, slices: seq<nat>)
    ensures DeviceTotal(Timer0, d, slices) == CounterTotal(T.Irqs, d, slices, 0)
    ensures DeviceTotal(Timer1, d, slices) == CounterTotal(T.Irqs, d, slices, 1)
    ensures DeviceTotal(Timer2, d, slices) == CounterTotal(T.Irqs, d, slices, 2)
  {
    if slices != [] { TimerTotals(d, slices[..|slices| - 1]); }
  }

  /** A counter and the video clock it looks at, and what is measured of it. */
  datatype Clocked = Clocked(measure: Measure, idx: nat, gpu: G.Clock, unit: T.Unit)

  function Of(measure: Measure, d: Devices, idx: nat): Clocked
    requires idx < 3
  {
    Clocked(measure, idx, d.gpu, TimerOf(d, idx))
  }

  function ClockedAfter(x: Clocked, n: nat): Clocked {
    if n == 0 then x else x.(gpu := G.Advanced(x.gpu, n), unit := T.Stepped(x.unit, x.idx, SliceAt(x.gpu, n)))
  }

  function ClockedGain(x: Clocked, n: nat): nat {
    if n == 0 then 0 else x.measure(x.unit.count, T.SliceTicks(x.unit, x.idx, SliceAt(x.gpu, n)))
  }

  function ClockedLimit(x: Clocked): nat { G.CyclesUntilBoundary(x.gpu) }

  ghost predicate ClockedGood(x: Clocked) { Steady(x.gpu) && Splits(x.measure) }

  lemma ClockedStep(measure: Measure, d: Devices, n: nat, idx: nat)
    requires idx < 3
    ensures Of(measure, DevicesAfter(d, n), idx) == ClockedAfter(Of(measure, d, idx), n)
    ensures ClockedGain(Of(measure, d, idx), n) == CounterGain(measure, d, n, idx)
  {
  }

  lemma {:induction false} ClockedFold(measure: Measure, d: Devices, slices: seq<nat>, idx: nat)
    requires idx < 3
    ensures Fold(ClockedAfter, Of(measure, d, idx), slices) == Of(measure, AfterSlices(d, slices), idx)
    ensures Over(ClockedAfter, ClockedGain, Of(measure, d, idx), slices)
            == CounterTotal(measure, d, slices, idx)
  {
    if slices != [] {
      var n := |slices| - 1;
      ClockedFold(measure, d, slices[..n], idx);
      ClockedStep(measure, AfterSlices(d, slices[..n]), slices[n], idx);
    }
  }

  lemma ClockedWithin(measure: Measure, d: Devices, slices: seq<nat>, idx: nat)
    requires idx < 3 && WithinBoundaries(d, slices)
    ensures AllWithin(ClockedAfter, ClockedLimit, Of(measure, d, idx), slices)
  {
    forall k | 0 <= k < |slices|
      ensures SliceWithin(ClockedAfter, ClockedLimit, Of(measure, d, idx), slices, k)
    {
      assert SliceWithin(DevicesAfter, Limit, d, slices, k);
      ClockedFold(measure, d, slices[..k], idx);
    }
  }

  lemma ClockedJoin(x: Clocked, m: nat, n: nat)
    requires Steady(x.gpu) && 0 < m && 0 < n && m + n <= ClockedLimit(x)
    ensures ClockedAfter(ClockedAfter(x, m), n) == ClockedAfter(x, m + n)
  {
    G.ClockSplit(x.gpu, m, n);
    TimerJoins(x.unit, x.idx, x.gpu, m, n);
  }

  lemma ClockedCuttable()
    ensures Cuttable(ClockedAfter, ClockedLimit, ClockedGood)
  {
    forall x: Clocked, n: nat | ClockedGood(x)
      ensures ClockedGood(ClockedAfter(x, n))
    {
      G.StaysNormal(x.gpu, n);
    }
    forall x: Clocked, m: nat, n: nat | ClockedGood(x) && 0 < m && 0 < n && m + n <= ClockedLimit(x)
      ensures ClockedAfter(ClockedAfter(x, m), n) == ClockedAfter(x, m + n)
      ensures ClockedLimit(ClockedAfter(x, m)) == ClockedLimit(x) - m
    {
      ClockedJoin(x, m, n);
      BoundaryCountsDown(x.gpu, m);
    }
  }

  lemma ClockedGainCut(x: Clocked, m: nat, n: nat)
    requires ClockedGood(x) && 0 < m && 0 < n && m + n <= ClockedLimit(x)
    ensures ClockedGain(x, m + n) == ClockedGain(x, m) + ClockedGain(ClockedAfter(x, m), n)
  {
    CutGain(x.measure, x.unit, x.idx, x.gpu, m, n);
  }

  lemma ClockedGains()
    ensures CutCounts(ClockedAfter, ClockedGain, ClockedLimit, ClockedGood)
  {
    forall x: Clocked, m: nat, n: nat | ClockedGood(x) && 0 < m && 0 < n && m + n <= ClockedLimit(x)
      ensures ClockedGain(x, m + n) == ClockedGain(x, m) + ClockedGain(ClockedAfter(x, m), n)
    {
      ClockedGainCut(x, m, n);
    }
  }

  /** However the cycles are cut up within the blanking edges, a counter raises as many interrupts, and hits its target
      as often. */
  lemma CounterGainsAlike(measure: Measure, d: Devices, a: seq<nat>, b: seq<nat>, idx: nat)
    requires Splits(measure) && idx < 3
    requires Steady(d.gpu) && WithinBoundaries(d, a) && WithinBoundaries(d, b) && Sum(a) == Sum(b)
    ensures CounterTotal(measure, d, a, idx) == CounterTotal(measure, d, b, idx)
  {
    ClockedCuttable();
    ClockedGains();
    ClockedWithin(measure, d, a, idx);
    ClockedWithin(measure, d, b, idx);
    ClockedFold(measure, d, a, idx);
    ClockedFold(measure, d, b, idx);
    AnySlicingCounts(ClockedAfter, ClockedGain, ClockedLimit, ClockedGood, Of(measure, d, idx), a, b);
  }

  /** A counter that is not synchronised gains what one undivided run of its ticks would. */
  lemma {:induction false} FreeCounterGain(measure: Measure, d: Devices, slices: seq<nat>, idx: nat)
    requires Splits(measure) && idx < 3 && Steady(d.gpu) && AllPositive(slices) && slices != []
    requires !TimerOf(d, idx).count.mode.syncEnable
    ensures CounterTotal(measure, d, slices, idx)
            == measure(TimerOf(d, idx).count, SourceTicks(TimerOf(d, idx), idx, d.gpu, Sum(slices)))
  {
    var n := |slices| - 1;
    if n > 0 {
      FreeCounterGain(measure, d, slices[..n], idx);
      FreeTimersSeeTotal(d, slices[..n], idx);
      VideoSeesTotal(d, slices[..n]);
      FreeGainAdds(measure, TimerOf(d, idx), idx, d.gpu, Sum(slices[..n]), slices[n]);
    } else {
      assert slices[..0] == [];
    }
  }

  lemma FreeGainAdds(measure: Measure, u: T.Unit, idx: nat, c: G.Clock, m: nat, n: nat)
    requires Splits(measure) && Steady(c) && !u.count.mode.syncEnable
    ensures var v, a := Undivided(u, idx, c, m), G.Advanced(c, m);
            measure(u.count, SourceTicks(u, idx, c, m + n))
            == measure(u.count, SourceTicks(u, idx, c, m)) + measure(v.count, T.SliceTicks(v, idx, SliceAt(a, n)))
  {
    var v, a := Undivided(u, idx, c, m), G.Advanced(c, m);
    var e, f := G.EventsOf(c, m), G.EventsOf(a, n);
    T.RunKeeps(u.count, SourceTicks(u, idx, c, m));
    G.SplitInvariance(c, m, n);
    T.TicksAdd(u.count.mode, u.fracRem, idx, m, n, e.dotclockTicks, f.dotclockTicks, e.hblankCount, f.hblankCount);
  }

  /** The interrupts of a run, source by source: vertical blanking raises its own exactly as often as line 240 begins;
      each counter as often as its ticks do, and once more if its event came; the controller as often as its reactions
      do; the serial port if and only if its interrupt is pending at the end; nothing else raises any. */
  ghost predicate Raised(raised: seq<Source>, d: Devices, cycles: nat, slices: seq<nat>, fires: seq<Firing>,
                         cdRaises: nat)
  {
    && CountOf(raised, Vblank) == G.Vblanks(d.gpu, cycles)
    && CountOf(raised, Timer0) == CounterTotal(T.Irqs, d, slices, 0) + |FiringsOf(fires, 1)|
    && CountOf(raised, Timer1) == CounterTotal(T.Irqs, d, slices, 1) + |FiringsOf(fires, 2)|
    && CountOf(raised, Timer2) == CounterTotal(T.Irqs, d, slices, 2) + |FiringsOf(fires, 3)|
    && (CountOf(raised, Source.Sio) > 0 <==> cycles > 0 && d.serial.Elapsed(cycles).irqPending)
    && CountOf(raised, Source.Cdrom) == cdRaises
    && CountOf(raised, Spu) == |FiringsOf(fires, 5)|
    && CountOf(raised, Source.Dma) == 0
  }

  lemma CountsMean(raised: seq<Source>, d: Devices, slices: seq<nat>, fires: seq<Firing>, cdRaises: nat)
    requires Steady(d.gpu) && WithinBoundaries(d, slices) && Counted(raised, d, slices, fires, cdRaises)
    ensures Raised(raised, d, Sum(slices), slices, fires, cdRaises)
  {
    VblankCounted(raised, d, slices, fires, cdRaises);
    TimersCounted(raised, d, slices, fires, cdRaises);
    SerialCounted(raised, d, slices, fires, cdRaises);
    OthersCounted(raised, d, slices, fires, cdRaises);
  }

  lemma VblankCounted(raised: seq<Source>, d: Devices, slices: seq<nat>, fires: seq<Firing>, cdRaises: nat)
    requires Steady(d.gpu) && WithinBoundaries(d, slices) && Counted(raised, d, slices, fires, cdRaises)
    ensures CountOf(raised, Vblank) == G.Vblanks(d.gpu, Sum(slices))
  {
    VblankTotal(d, slices);
  }

  lemma TimersCounted(raised: seq<Source>, d: Devices, slices: seq<nat>, fires: seq<Firing>, cdRaises: nat)
    requires Counted(raised, d, slices, fires, cdRaises)
    ensures CountOf(raised, Timer0) == CounterTotal(T.Irqs, d, slices, 0) + |FiringsOf(fires, 1)|
    ensures CountOf(raised, Timer1) == CounterTotal(T.Irqs, d, slices, 1) + |FiringsOf(fires, 2)|
    ensures CountOf(raised, Timer2) == CounterTotal(T.Irqs, d, slices, 2) + |FiringsOf(fires, 3)|
  {
    TimerTotals(d, slices);
  }

  lemma SerialCounted(raised: seq<Source>, d: Devices, slices: seq<nat>, fires: seq<Firing>, cdRaises: nat)
    requires WithinBoundaries(d, slices) && Counted(raised, d, slices, fires, cdRaises)
    ensures CountOf(raised, Source.Sio) > 0 <==> Sum(slices) > 0 && d.serial.Elapsed(Sum(slices)).irqPending
  {
    WithinPositive(d, slices);
    SerialTotal(d, slices);
    SumPositive(slices);
  }

  lemma OthersCounted(raised: seq<Source>, d: Devices, slices: seq<nat>, fires: seq<Firing>, cdRaises: nat)
    requires Counted(raised, d, slices, fires, cdRaises)
    ensures CountOf(raised, Source.Cdrom) == cdRaises && CountOf(raised, Spu) == |FiringsOf(fires, 5)|
    ensures CountOf(raised, Source.Dma) == 0
  {
    OthersSilent(d, slices);
  }

  lemma SumPositive(slices: seq<nat>)
    requires AllPositive(slices)
    ensures Sum(slices) > 0 <==> slices != []
  {
  }

  lemma {:induction false} OthersSilent(d: Devices, slices: seq<nat>)
    ensures DeviceTotal(Source.Cdrom, d, slices) == 0 && DeviceTotal(Spu, d, slices) == 0
    ensures DeviceTotal(Source.Dma, d, slices) == 0
  {
    if slices != [] { OthersSilent(d, slices[..|slices| - 1]); }
  }
}
