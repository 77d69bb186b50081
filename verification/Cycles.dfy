/** The devices cycle by cycle: any slices that keep to the blanking edges amount to the same single cycles. */
module Cycles {
  import opened Iteration
  import opened Slicing
  import G = GpuClock
  import T = Timer

  /** n slices of one cycle. */
  function Ones(n: nat): (r: seq<nat>)
    ensures |r| == n
  {
    if n == 0 then [] else Ones(n - 1) + [1]
  }

  lemma {:induction false} OnesSum(n: nat)
    ensures Sum(Ones(n)) == n
  {
    if n > 0 {
      OnesSum(n - 1);
      OneMoreSum(Ones(n - 1), 1);
    }
  }

  lemma OneMoreSum(xs: seq<nat>, n: nat)
    ensures Sum(xs + [n]) == Sum(xs) + n
  {
    assert (xs + [n])[..|xs|] == xs;
  }

  /** The devices after n cycles, one at a time. */
  function AfterCycles(d: Devices, n: nat): Devices { AfterSlices(d, Ones(n)) }

  lemma OneCycleMore(d: Devices, n: nat)
    ensures AfterCycles(d, n + 1) == DevicesAfter(AfterCycles(d, n), 1)
  {
    OneMore(d, Ones(n), 1);
  }

  /** Single cycles always keep to the blanking edges. */
  lemma {:induction false} OnesWithin(d: Devices, n: nat)
    requires Steady(d.gpu)
    ensures WithinBoundaries(d, Ones(n)) && Steady(AfterCycles(d, n).gpu)
  {
    if n > 0 {
      OnesWithin(d, n - 1);
      G.BoundaryIsExact(AfterCycles(d, n - 1).gpu, 0);
      AppendSlice(d, Ones(n - 1), 1);
      OneCycleMore(d, n - 1);
      G.StaysNormal(AfterCycles(d, n - 1).gpu, 1);
    } else {
      NoSlices(d);
    }
  }

  /** So cycle by cycle the devices end where any such slices take them. */
  lemma SlicesAreCycles(d: Devices, slices: seq<nat>)
    requires Steady(d.gpu) && WithinBoundaries(d, slices)
    ensures AfterSlices(d, slices) == AfterCycles(d, Sum(slices))
  {
    OnesWithin(d, Sum(slices));
    OnesSum(Sum(slices));
    SlicingIrrelevant(d, slices, Ones(Sum(slices)));
  }

  // ---- What each synchronisation mode means, cycle by cycle ----

  /** Whether a counter counts in a cycle. Counter 0 looks at the horizontal blanking and counter 1 at the vertical:
      mode 0 pauses inside it, mode 1 counts through, mode 2 counts inside it only, mode 3 waits for the first one to
      begin. Counter 2 stands still in modes 0 and 3. */
  predicate Counting(u: T.Unit, idx: nat, c: G.Clock) {
    var m, inside := u.count.mode, if idx == 0 then c.hblank else c.InVblank();
    || !m.syncEnable
    || (idx == 2 && m.syncMode != 0 && m.syncMode != 3)
    || (idx != 2 && m.syncMode == 0 && !inside)
    || (idx != 2 && m.syncMode == 2 && inside)
    || (idx != 2 && m.syncMode == 3 && u.syncStarted)
    || (idx != 2 && m.syncMode != 0 && m.syncMode != 2 && m.syncMode != 3)
  }

  /** The ticks of its clock source in this one cycle. */
  function Pulses(u: T.Unit, idx: nat, c: G.Clock): nat {
    T.Ticks(u.count.mode, u.fracRem, idx, 1, G.EventsOf(c, 1).dotclockTicks, G.EventsOf(c, 1).hblankCount)
  }

  /** The blanking that the counter looks at begins at the end of this cycle. */
  predicate Begins(idx: nat, c: G.Clock) {
    if idx == 0 then G.EventsOf(c, 1).hblankCount > 0 else G.EventsOf(c, 1).vblankStarted
  }

  function Zeroed(u: T.Unit): T.Unit { u.(count := u.count.(value := 0, resetPending := false)) }

  /** A counter after one cycle: it counts or not, and when its blanking begins modes 1 and 2 start it again from 0
      and mode 3 lets it go. */
  function CycleOf(u: T.Unit, idx: nat, c: G.Clock): T.Unit {
    var m := u.count.mode;
    var v := T.Unit(T.Run(u.count, if Counting(u, idx, c) then Pulses(u, idx, c) else 0),
                    T.Remainder(m, u.fracRem, idx, 1), u.syncStarted);
    if !m.syncEnable || idx == 2 || !Begins(idx, c) then v
    else if m.syncMode == 1 || m.syncMode == 2 then Zeroed(v)
    else if m.syncMode == 3 then v.(syncStarted := true)
    else v
  }

  /** The video clock after n cycles. */
  function ClockAt(c: G.Clock, n: nat): G.Clock { if n == 0 then c else G.Advanced(c, n) }

  function ByCycle(u: T.Unit, idx: nat, c: G.Clock, n: nat): T.Unit {
    if n == 0 then u else CycleOf(ByCycle(u, idx, c, n - 1), idx, ClockAt(c, n - 1))
  }

  lemma TicksAsCounting(u: T.Unit, idx: nat, c: G.Clock)
    requires idx < 3
    ensures T.SliceTicks(u, idx, SliceAt(c, 1)) == if Counting(u, idx, c) then Pulses(u, idx, c) else 0
  {
  }

  lemma OneCycle(u: T.Unit, idx: nat, c: G.Clock)
    requires idx < 3
    ensures T.Stepped(u, idx, SliceAt(c, 1)) == CycleOf(u, idx, c)
  {
    TicksAsCounting(u, idx, c);
    T.RunKeeps(u.count, T.SliceTicks(u, idx, SliceAt(c, 1)));
    EdgeAsBegins(u, idx, SliceAt(c, 1), c);
  }

  lemma EdgeAsBegins(u: T.Unit, idx: nat, s: T.Slice, c: G.Clock)
    requires s == SliceAt(c, 1)
    ensures (if idx == 0 then s.hblankCount != 0 else s.vblankStarted) <==> Begins(idx, c)
  {
  }

  lemma CycleTimer(d: Devices, n: nat, idx: nat)
    requires Steady(d.gpu) && idx < 3
    ensures TimerOf(AfterCycles(d, n + 1), idx)
            == T.Stepped(TimerOf(AfterCycles(d, n), idx), idx, SliceAt(ClockAt(d.gpu, n), 1))
  {
    OneCycleMore(d, n);
    OnesWithin(d, n);
    OnesSum(n);
    WithinPositive(d, Ones(n));
    VideoSeesTotal(d, Ones(n));
  }

  /** A counter to be followed from here. */
  datatype Follow = Follow(d: Devices, idx: nat)

  function Seen(f: Follow, n: nat): T.Unit { if f.idx < 3 then TimerOf(AfterCycles(f.d, n), f.idx) else f.d.timers.0 }

  function Meant(f: Follow, n: nat): T.Unit {
    if f.idx < 3 then ByCycle(TimerOf(f.d, f.idx), f.idx, f.d.gpu, n) else f.d.timers.0
  }

  lemma SeenNext(f: Follow, n: nat)
    requires Steady(f.d.gpu) && f.idx < 3
    ensures Seen(f, n + 1) == CycleOf(Seen(f, n), f.idx, ClockAt(f.d.gpu, n))
  {
    CycleTimer(f.d, n, f.idx);
    OneCycle(TimerOf(AfterCycles(f.d, n), f.idx), f.idx, ClockAt(f.d.gpu, n));
  }

  lemma MeantNext(f: Follow, n: nat)
    requires f.idx < 3
    ensures Meant(f, n + 1) == CycleOf(Meant(f, n), f.idx, ClockAt(f.d.gpu, n))
  {
  }

  lemma SeenAsMeant(f: Follow, n: nat)
    requires Steady(f.d.gpu) && f.idx < 3
    ensures GoesOn(Seen, Meant, f, n)
  {
    SeenNext(f, n);
    MeantNext(f, n);
  }

  lemma CountersByCycle(d: Devices, n: nat, idx: nat)
    requires Steady(d.gpu) && idx < 3
    ensures TimerOf(AfterCycles(d, n), idx) == ByCycle(TimerOf(d, idx), idx, d.gpu, n)
  {
    var f := Follow(d, idx);
    forall k | 0 <= k < n
      ensures GoesOn(Seen, Meant, f, k)
    {
      SeenAsMeant(f, k);
    }
    SameSequence(Seen, Meant, f, n);
  }

  /** Slices that keep to the blanking edges leave every counter, in every synchronisation mode and with every clock
      source, where going cycle by cycle would. */
  lemma SyncedByCycle(d: Devices, slices: seq<nat>, idx: nat)
    requires Steady(d.gpu) && WithinBoundaries(d, slices) && idx < 3
    ensures TimerOf(AfterSlices(d, slices), idx) == ByCycle(TimerOf(d, idx), idx, d.gpu, Sum(slices))
  {
    SlicesAreCycles(d, slices);
    CountersByCycle(d, Sum(slices), idx);
  }
}
