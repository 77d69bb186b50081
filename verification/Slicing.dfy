/** What the slices that the main loop hands out amount to, for everything that moves with the system clock
    besides the scheduler.

    The video clock, the serial countdown and the unsynchronised counters only see the total. A counter
    that is synchronised to blanking sees flags sampled at the start of a slice and edges applied at its end,
    so slices that keep to the blanking edges are all alike for it too (`SlicingIrrelevant`).
 */
module Slicing {
  import opened Iteration
  import G = GpuClock
  import S = SerialPort
  import T = Timer

  /** What a slice of n cycles looks like to the counters when the video clock stands at c. */
  function SliceAt(c: G.Clock, n: nat): T.Slice {
    var e := G.EventsOf(c, n);
    T.Slice(n, e.dotclockTicks, e.hblankCount, c.hblank, e.vblankStarted, c.InVblank())
  }

  /** Everything that moves with the system clock besides the scheduler. */
  datatype Devices = Devices(gpu: G.Clock, timers: (T.Unit, T.Unit, T.Unit), serial: S.Signal)

  function TimersAfter(t: (T.Unit, T.Unit, T.Unit), s: T.Slice): (T.Unit, T.Unit, T.Unit) {
    (T.Stepped(t.0, 0, s), T.Stepped(t.1, 1, s), T.Stepped(t.2, 2, s))
  }

  function DevicesAfter(d: Devices, n: nat): Devices {
    if n == 0 then d else
      Devices(G.Advanced(d.gpu, n), TimersAfter(d.timers, SliceAt(d.gpu, n)),
              d.serial.Elapsed(n))
  }

  /** The devices after a sequence of slices. */
  function AfterSlices(d: Devices, slices: seq<nat>): Devices { Fold(DevicesAfter, d, slices) }

  /** Where the next blanking edge is. */
  function Limit(d: Devices): nat { G.CyclesUntilBoundary(d.gpu) }

  /** Every slice is positive and ends at or before the next blanking edge. */
  predicate WithinBoundaries(d: Devices, slices: seq<nat>) { AllWithin(DevicesAfter, Limit, d, slices) }

  lemma NoSlices(d: Devices)
    ensures AfterSlices(d, []) == d && WithinBoundaries(d, []) && Sum([]) == 0
  {
  }

  lemma OneMore(d: Devices, slices: seq<nat>, n: nat)
    ensures Sum(slices + [n]) == Sum(slices) + n
    ensures AfterSlices(d, slices + [n]) == DevicesAfter(AfterSlices(d, slices), n)
  {
    assert (slices + [n])[..|slices|] == slices;
  }

  lemma AppendSlice(d: Devices, slices: seq<nat>, n: nat)
    requires WithinBoundaries(d, slices) && 0 < n <= G.CyclesUntilBoundary(AfterSlices(d, slices).gpu)
    ensures Sum(slices + [n]) == Sum(slices) + n
    ensures AfterSlices(d, slices + [n]) == DevicesAfter(AfterSlices(d, slices), n)
    ensures WithinBoundaries(d, slices + [n])
  {
    OneMore(d, slices, n);
    var longer := slices + [n];
    forall k | 0 <= k < |longer|
      ensures SliceWithin(DevicesAfter, Limit, d, longer, k)
    {
      if k < |slices| {
        assert SliceWithin(DevicesAfter, Limit, d, slices, k) && longer[..k] == slices[..k];
      } else {
        assert longer[..k] == slices;
      }
    }
  }

  // ---- Totals ----


  predicate AllPositive(slices: seq<nat>) { forall k :: 0 <= k < |slices| ==> slices[k] > 0 }

  lemma WithinPositive(d: Devices, slices: seq<nat>)
    requires WithinBoundaries(d, slices)
    ensures AllPositive(slices)
  {
    forall k | 0 <= k < |slices|
      ensures slices[k] > 0
    {
      assert SliceWithin(DevicesAfter, Limit, d, slices, k);
    }
  }

  lemma PrefixWithin(d: Devices, slices: seq<nat>, m: nat)
    requires WithinBoundaries(d, slices) && m < |slices|
    ensures WithinBoundaries(d, slices[..m])
    ensures 0 < slices[m] <= G.CyclesUntilBoundary(AfterSlices(d, slices[..m]).gpu)
  {
    forall k | 0 <= k < m
      ensures SliceWithin(DevicesAfter, Limit, d, slices[..m], k)
    {
      assert SliceWithin(DevicesAfter, Limit, d, slices, k) && slices[..m][..k] == slices[..k];
    }
    assert SliceWithin(DevicesAfter, Limit, d, slices, m);
  }

  lemma LastSlice(d: Devices, slices: seq<nat>, idx: nat)
    requires slices != [] && slices[|slices| - 1] > 0 && idx < 3
    ensures var n := |slices| - 1;
            var before := AfterSlices(d, slices[..n]);
            AfterSlices(d, slices).gpu == G.Advanced(before.gpu, slices[n])
            && TimerOf(AfterSlices(d, slices), idx)
               == T.Stepped(TimerOf(before, idx), idx, SliceAt(before.gpu, slices[n]))
  {
  }

  lemma {:induction false} VideoFolds(d: Devices, slices: seq<nat>)
    requires AllPositive(slices)
    ensures AfterSlices(d, slices).gpu == Fold(G.Advanced, d.gpu, slices)
  {
    if slices != [] {
      LastSlice(d, slices, 0);
      VideoFolds(d, slices[..|slices| - 1]);
    }
  }

  predicate Steady(c: G.Clock) { c.Normal() && c.frames < G.U32 }

  /** The video clock only sees the total. */
  lemma VideoSeesTotal(d: Devices, slices: seq<nat>)
    requires Steady(d.gpu) && AllPositive(slices)
    ensures Steady(AfterSlices(d, slices).gpu)
    ensures AfterSlices(d, slices).gpu == if slices == [] then d.gpu else G.Advanced(d.gpu, Sum(slices))
  {
    VideoFolds(d, slices);
    if slices != [] {
      VideoAdditive();
      FoldIsSum(G.Advanced, Steady, d.gpu, slices);
    }
  }

  lemma VideoAdditive()
    ensures Additive(G.Advanced, Steady)
  {
    forall c, n: nat | Steady(c)
      ensures Steady(G.Advanced(c, n))
    {
      G.StaysNormal(c, n);
    }
    forall c, m: nat, n: nat | Steady(c)
      ensures G.Advanced(G.Advanced(c, m), n) == G.Advanced(c, m + n)
    {
      G.ClockSplit(c, m, n);
    }
  }

  /** The serial countdown only sees the total, and its event comes due at exactly the right cycle. */
  lemma {:induction false} SerialSeesTotal(d: Devices, slices: seq<nat>)
    requires AllPositive(slices)
    ensures AfterSlices(d, slices).serial == d.serial.Elapsed(Sum(slices))
  {
    if slices != [] {
      var n := |slices| - 1;
      SerialSeesTotal(d, slices[..n]);
      S.AcknowledgeOnTime(d.serial, Sum(slices[..n]), slices[n]);
    }
  }

  /** The blanking flags sampled before a slice hold at every cycle of it but the last. */
  lemma FlagsHoldThroughSlice(d: Devices, slices: seq<nat>, k: nat, j: nat)
    requires Steady(d.gpu) && WithinBoundaries(d, slices)
    requires k < |slices| && j < slices[k]
    ensures var c := AfterSlices(d, slices[..k]).gpu;
            G.Advanced(c, j).hblank == c.hblank && (G.Advanced(c, j).InVblank() <==> c.InVblank())
  {
    forall i | 0 <= i <= k ensures slices[i] > 0 {
      assert SliceWithin(DevicesAfter, Limit, d, slices, i);
    }
    assert SliceWithin(DevicesAfter, Limit, d, slices, k);
    VideoSeesTotal(d, slices[..k]);
    G.BoundaryIsExact(AfterSlices(d, slices[..k]).gpu, j);
  }

  /** The ticks that n cycles give a counter when they come in one piece. */
  function SourceTicks(u: T.Unit, idx: nat, c: G.Clock, n: nat): nat {
    T.Ticks(u.count.mode, u.fracRem, idx, n, G.EventsOf(c, n).dotclockTicks, G.EventsOf(c, n).hblankCount)
  }

  /** A counter after n cycles in one piece, if it is not synchronised. */
  function Undivided(u: T.Unit, idx: nat, c: G.Clock, n: nat): T.Unit {
    T.Unit(T.Run(u.count, SourceTicks(u, idx, c, n)), T.Remainder(u.count.mode, u.fracRem, idx, n), u.syncStarted)
  }

  function TimerOf(d: Devices, idx: nat): T.Unit
    requires idx < 3
  {
    if idx == 0 then d.timers.0 else if idx == 1 then d.timers.1 else d.timers.2
  }

  /** A counter that is not synchronised to blanking only sees the total, whatever its clock source: it ends
      where one undivided run of the source's ticks would take it. */
  lemma {:induction false} FreeTimersSeeTotal(d: Devices, slices: seq<nat>, idx: nat)
    requires Steady(d.gpu) && AllPositive(slices) && slices != [] && idx < 3
    requires !TimerOf(d, idx).count.mode.syncEnable
    ensures TimerOf(AfterSlices(d, slices), idx) == Undivided(TimerOf(d, idx), idx, d.gpu, Sum(slices))
  {
    var n := |slices| - 1;
    if n == 0 {
      OnlySlice(d, slices, idx);
    } else {
      FreeTimersSeeTotal(d, slices[..n], idx);
      OneMoreInAll(d, slices, idx);
    }
  }

  lemma OnlySlice(d: Devices, slices: seq<nat>, idx: nat)
    requires |slices| == 1 && slices[0] > 0 && idx < 3 && !TimerOf(d, idx).count.mode.syncEnable
    ensures TimerOf(AfterSlices(d, slices), idx) == Undivided(TimerOf(d, idx), idx, d.gpu, Sum(slices))
  {
    LastSlice(d, slices, idx);
    assert slices[..0] == [];
    OneSlice(TimerOf(d, idx), idx, d.gpu, slices[0]);
  }

  lemma OneMoreInAll(d: Devices, slices: seq<nat>, idx: nat)
    requires Steady(d.gpu) && AllPositive(slices) && |slices| > 1 && idx < 3
    requires !TimerOf(d, idx).count.mode.syncEnable
    requires var before := slices[..|slices| - 1];
             TimerOf(AfterSlices(d, before), idx) == Undivided(TimerOf(d, idx), idx, d.gpu, Sum(before))
    ensures TimerOf(AfterSlices(d, slices), idx) == Undivided(TimerOf(d, idx), idx, d.gpu, Sum(slices))
  {
    var n := |slices| - 1;
    var before := AfterSlices(d, slices[..n]);
    LastSlice(d, slices, idx);
    VideoSeesTotal(d, slices[..n]);
    OneMoreAfter(TimerOf(d, idx), idx, d.gpu, Sum(slices[..n]), slices[n], TimerOf(before, idx), before.gpu,
                 TimerOf(AfterSlices(d, slices), idx));
  }

  lemma OneMoreAfter(u: T.Unit, idx: nat, c: G.Clock, m: nat, n: nat, v: T.Unit, a: G.Clock, w: T.Unit)
    requires Steady(c) && !u.count.mode.syncEnable && v == Undivided(u, idx, c, m) && a == G.Advanced(c, m)
    requires w == T.Stepped(v, idx, SliceAt(a, n))
    ensures w == Undivided(u, idx, c, m + n)
  {
    OneMoreSlice(u, idx, c, m, n, v, a);
  }

  lemma OneMoreSlice(u: T.Unit, idx: nat, c: G.Clock, m: nat, n: nat, v: T.Unit, a: G.Clock)
    requires Steady(c) && !u.count.mode.syncEnable && v == Undivided(u, idx, c, m) && a == G.Advanced(c, m)
    ensures T.Stepped(v, idx, SliceAt(a, n)) == Undivided(u, idx, c, m + n)
  {
    T.RunKeeps(u.count, SourceTicks(u, idx, c, m));
    OneSlice(Undivided(u, idx, c, m), idx, G.Advanced(c, m), n);
    UndividedAdds(u, idx, c, m, n);
  }

  lemma OneSlice(u: T.Unit, idx: nat, c: G.Clock, n: nat)
    requires !u.count.mode.syncEnable
    ensures T.Stepped(u, idx, SliceAt(c, n)) == Undivided(u, idx, c, n)
  {
    T.UnsyncedStep(u, idx, SliceAt(c, n));
  }

  lemma UndividedAdds(u: T.Unit, idx: nat, c: G.Clock, m: nat, n: nat)
    requires Steady(c)
    ensures Undivided(Undivided(u, idx, c, m), idx, G.Advanced(c, m), n) == Undivided(u, idx, c, m + n)
  {
    var v, a := Undivided(u, idx, c, m), G.Advanced(c, m);
    var e, f := G.EventsOf(c, m), G.EventsOf(a, n);
    T.RunKeeps(u.count, SourceTicks(u, idx, c, m));
    T.RunSplits(u.count, SourceTicks(u, idx, c, m), SourceTicks(v, idx, a, n));
    G.SplitInvariance(c, m, n);
    T.TicksAdd(u.count.mode, u.fracRem, idx, m, n, e.dotclockTicks, f.dotclockTicks, e.hblankCount, f.hblankCount);
  }

  // ---- Any two slicings ----

  /** The distance to the next boundary goes down with the cycles. */
  lemma BoundaryCountsDown(c: G.Clock, m: nat)
    requires Steady(c) && m < G.CyclesUntilBoundary(c)
    ensures G.CyclesUntilBoundary(G.Advanced(c, m)) == G.CyclesUntilBoundary(c) - m
  {
    var a, whole := G.Advanced(c, m), G.CyclesUntilBoundary(c);
    G.StaysNormal(c, m);
    var left := G.CyclesUntilBoundary(a);
    G.BoundaryIsExact(c, m);
    if left < whole - m {
      G.ClockSplit(c, m, left);
      G.BoundaryIsExact(a, left);
      G.BoundaryIsExact(c, m + left);
    } else if left > whole - m {
      G.ClockSplit(c, m, whole - m);
      G.BoundaryIsExact(a, whole - m);
      G.BoundaryIsExact(c, whole);
    }
  }

  /** Cutting a slice that ends at or before the next boundary changes nothing for a counter. */
  lemma TimerJoins(u: T.Unit, idx: nat, c: G.Clock, m: nat, n: nat)
    requires Steady(c) && 0 < n && m + n <= G.CyclesUntilBoundary(c)
    ensures T.Stepped(T.Stepped(u, idx, SliceAt(c, m)), idx, SliceAt(G.Advanced(c, m), n))
            == T.Stepped(u, idx, SliceAt(c, m + n))
  {
    CutSlice(c, m, n);
    T.StepsJoin(u, idx, SliceAt(c, m), SliceAt(G.Advanced(c, m), n));
  }

  lemma CutSlice(c: G.Clock, m: nat, n: nat)
    requires Steady(c) && 0 < n && m + n <= G.CyclesUntilBoundary(c)
    ensures var s, t := SliceAt(c, m), SliceAt(G.Advanced(c, m), n);
            && s.hblankCount == 0 && !s.vblankStarted && t.inHblank == s.inHblank && t.inVblank == s.inVblank
            && SliceAt(c, m + n) == T.SlicesJoined(s, t)
  {
    G.BoundaryIsExact(c, m);
    G.SplitInvariance(c, m, n);
  }

  lemma DevicesJoin(d: Devices, m: nat, n: nat)
    requires Steady(d.gpu) && 0 < m && 0 < n && m + n <= G.CyclesUntilBoundary(d.gpu)
    ensures DevicesAfter(DevicesAfter(d, m), n) == DevicesAfter(d, m + n)
  {
    G.ClockSplit(d.gpu, m, n);
    S.AcknowledgeOnTime(d.serial, m, n);
    TimerJoins(d.timers.0, 0, d.gpu, m, n);
    TimerJoins(d.timers.1, 1, d.gpu, m, n);
    TimerJoins(d.timers.2, 2, d.gpu, m, n);
  }

  lemma DevicesCuttable()
    ensures Cuttable(DevicesAfter, Limit, (d: Devices) => Steady(d.gpu))
  {
    forall d: Devices, n: nat | Steady(d.gpu)
      ensures Steady(DevicesAfter(d, n).gpu)
    {
      G.StaysNormal(d.gpu, n);
    }
    forall d: Devices, m: nat, n: nat | Steady(d.gpu) && 0 < m && 0 < n && m + n <= Limit(d)
      ensures DevicesAfter(DevicesAfter(d, m), n) == DevicesAfter(d, m + n)
      ensures Limit(DevicesAfter(d, m)) == Limit(d) - m
    {
      DevicesJoin(d, m, n);
      BoundaryCountsDown(d.gpu, m);
    }
  }

  /** Any two slicings of the same total that keep to the blanking edges leave every device alike, counters
      synchronised to blanking included. */
  lemma SlicingIrrelevant(d: Devices, a: seq<nat>, b: seq<nat>)
    requires Steady(d.gpu) && WithinBoundaries(d, a) && WithinBoundaries(d, b) && Sum(a) == Sum(b)
    ensures AfterSlices(d, a) == AfterSlices(d, b)
  {
    DevicesCuttable();
    AnySlicing(DevicesAfter, Limit, (d: Devices) => Steady(d.gpu), d, a, b);
  }
}
