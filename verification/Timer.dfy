/** One root counter: a 16-bit counter with target and overflow interrupts, stepped tick by tick.

    `Run` iterates one tick; the lemmas below it give the counter, the number of target hits and the
    number of interrupts in closed form.
 */
module Timer {
  import opened Arith
  import opened Interrupts
  import opened Iteration
  import Scheduling

  const WRAP := 0x1_0000

  /** The writable part of the mode register. */
  datatype Mode = Mode(syncEnable: bool, syncMode: nat, resetTarget: bool, irqTarget: bool, irqOverflow: bool,
                       repeat: bool, toggle: bool, clockSource: nat)

  /** A counter. irqStatus is the inverted request bit: false means requesting. */
  datatype Counter = Counter(mode: Mode, target: nat, value: nat, irqStatus: bool, targetReached: bool,
                             overflowReached: bool, fired: bool, resetPending: bool)
  {
    predicate Valid() { value < WRAP && target < WRAP }
  }

  /** A counter with its clock divider and synchronisation state. */
  datatype Unit = Unit(count: Counter, fracRem: nat, syncStarted: bool)

  /** 16-bit increment. */
  function Next(v: nat): nat { if v == WRAP - 1 then 0 else v + 1 }

  /** Result of raising the unit's interrupt condition once. */
  function Fired(u: Counter): Counter {
    if !u.mode.repeat && u.fired then u
    else if u.mode.toggle then u.(irqStatus := !u.irqStatus, fired := u.fired || u.irqStatus)
    else u.(irqStatus := true, fired := true)
  }

  /** Whether that asserts the interrupt line. */
  predicate Asserts(u: Counter) {
    (u.mode.repeat || !u.fired) && (u.mode.toggle ==> u.irqStatus)
  }

  predicate HitsTarget(u: Counter) { !u.resetPending && Next(u.value) == u.target }

  predicate Overflows(u: Counter) { !u.resetPending && u.value == WRAP - 1 }

  /** The unit between the target and the overflow check of a counting tick. */
  function AfterTarget(u: Counter): Counter {
    if HitsTarget(u) then
      var f := if u.mode.irqTarget then Fired(u) else u;
      f.(value := Next(u.value), targetReached := true, resetPending := u.mode.resetTarget)
    else u.(value := Next(u.value))
  }

  /** The overflow check of a counting tick. */
  function AfterOverflow(t: Counter): Counter {
    var f := if t.mode.irqOverflow then Fired(t) else t;
    f.(overflowReached := true)
  }

  function Tick(u: Counter): Counter {
    if u.resetPending then u.(value := 0, resetPending := false)
    else if Overflows(u) then AfterOverflow(AfterTarget(u))
    else AfterTarget(u)
  }

  /** Interrupts asserted by one tick. */
  function TickIrqs(u: Counter): nat {
    (if HitsTarget(u) && u.mode.irqTarget && Asserts(u) then 1 else 0)
    + (if Overflows(u) && u.mode.irqOverflow && Asserts(AfterTarget(u)) then 1 else 0)
  }

  function HitCount(u: Counter): nat { if HitsTarget(u) then 1 else 0 }

  function Run(u: Counter, n: nat): Counter { Iterate(Tick, u, n) }

  /** Interrupts asserted in n ticks. */
  function Irqs(u: Counter, n: nat): nat { Total(Tick, TickIrqs, u, n) }

  /** Target hits in n ticks. */
  function Hits(u: Counter, n: nat): nat { Total(Tick, HitCount, u, n) }

  function WrapCount(u: Counter): nat { if Overflows(u) then 1 else 0 }

  /** Overflows in n ticks. */
  function Wraps(u: Counter, n: nat): nat { Total(Tick, WrapCount, u, n) }

  /** What no tick changes. */
  predicate SameSetup(u: Counter, r: Counter) {
    r.mode == u.mode && r.target == u.target && (u.Valid() ==> r.Valid())
  }

  lemma FiredKeeps(u: Counter)
    ensures SameSetup(u, Fired(u)) && Fired(u).value == u.value && Fired(u).resetPending == u.resetPending
  {
  }

  lemma AfterTargetKeeps(u: Counter)
    ensures SameSetup(u, AfterTarget(u))
  {
    FiredKeeps(u);
  }

  lemma TickKeeps(u: Counter)
    ensures SameSetup(u, Tick(u))
  {
    FiredKeeps(u);
    AfterTargetKeeps(u);
    FiredKeeps(AfterTarget(u));
  }

  lemma {:induction false} RunKeeps(u: Counter, n: nat)
    ensures SameSetup(u, Run(u, n))
  {
    if n > 0 {
      RunKeeps(u, n - 1);
      TickKeeps(Run(u, n - 1));
    }
  }

  // ---- Reset on target ----

  /** The states a unit with reset-on-target settles in: it counts 0..target and resets one tick after. A target of
      0 is reached by wrapping, and costs one tick more than the wrap. */
  predicate Aligned(u: Counter) {
    && u.Valid() && u.mode.resetTarget
    && if u.target == 0 then u.resetPending ==> u.value == 0
       else u.value <= u.target && (u.resetPending <==> u.value == u.target)
  }

  /** Ticks from one reset to the next. */
  function Period(u: Counter): nat { if u.target == 0 then WRAP + 1 else u.target + 1 }

  /** Where an aligned unit is in its period. */
  function Phase(u: Counter): nat { if u.target == 0 && u.resetPending then WRAP else u.value }

  lemma AlignedTick(u: Counter)
    requires Aligned(u)
    ensures Aligned(Tick(u)) && Tick(u).target == u.target && Phase(u) < Period(u)
    ensures Phase(Tick(u)) == if Phase(u) + 1 == Period(u) then 0 else Phase(u) + 1
    ensures HitsTarget(u) <==> Phase(u) + 2 == Period(u)
  {
  }

  /** The counter is a modulo-(target + 1) counter, and hits come once per period. */
  lemma {:induction false} ResetOnTarget(u: Counter, n: nat)
    requires Aligned(u)
    ensures var r, period := Run(u, n), Period(u);
            Aligned(r) && r.target == u.target && Phase(r) == (Phase(u) + n) % period
            && Hits(u, n) == (Phase(u) + n + 1) / period - (Phase(u) + 1) / period
  {
    var period := Period(u);
    if n == 0 {
      AlignedTick(u);
      QuotientUnique(Phase(u), period, 0);
    } else {
      ResetOnTarget(u, n - 1);
      AlignedTick(Run(u, n - 1));
      AddDivMod(Phase(u) + (n - 1), period, 1);
      AddDivMod(Phase(u) + n, period, 1);
    }
  }

  /** How long a unit takes to settle. Its target may have been written below its value: then it wraps first. */
  function Settling(u: Counter): nat
    requires u.Valid()
  {
    if Aligned(u) then 0 else if u.resetPending then 1 else WRAP - u.value
  }

  /** Until then it counts up without a hit and is not aligned; then it stands at 0. */
  lemma {:induction false} Settles(u: Counter, n: nat)
    requires u.Valid() && u.mode.resetTarget && n <= Settling(u)
    ensures Hits(u, n) == 0 && SameSetup(u, Run(u, n))
    ensures n < Settling(u) ==>
              var r := Run(u, n); !Aligned(r) && r.resetPending == u.resetPending && r.value == u.value + n
    ensures 0 < n == Settling(u) ==> Aligned(Run(u, n)) && Phase(Run(u, n)) == 0
  {
    RunKeeps(u, n);
    if n > 0 {
      Settles(u, n - 1);
      UnalignedTick(Run(u, n - 1));
    }
  }

  lemma UnalignedTick(u: Counter)
    requires u.Valid() && u.mode.resetTarget && !Aligned(u)
    ensures !HitsTarget(u)
    ensures var r := Tick(u);
            if u.resetPending || u.value == WRAP - 1 then Aligned(r) && Phase(r) == 0
            else !Aligned(r) && !r.resetPending && r.value == u.value + 1
  {
  }

  /** Reset-on-target from any state: no hit until the unit has settled, one hit per period from there. */
  lemma ResetFromAnywhere(u: Counter, n: nat)
    requires u.Valid() && u.mode.resetTarget
    ensures var r, wait, period := Run(u, n), Settling(u), Period(u);
            var start := if wait == 0 then Phase(u) else 0;
            if n < wait then Hits(u, n) == 0 && r.value == u.value + n
            else
              Aligned(r) && Phase(r) == (start + (n - wait)) % period
              && Hits(u, n) == (start + (n - wait) + 1) / period - (start + 1) / period
  {
    var wait := Settling(u);
    if n < wait {
      Settles(u, n);
    } else {
      ResetOnceSettled(u, wait, n - wait);
    }
  }

  lemma ResetOnceSettled(u: Counter, wait: nat, n: nat)
    requires u.Valid() && u.mode.resetTarget && wait == Settling(u)
    ensures var r, period, start := Run(u, wait + n), Period(u), if wait == 0 then Phase(u) else 0;
            Aligned(r) && Phase(r) == (start + n) % period
            && Hits(u, wait + n) == (start + n + 1) / period - (start + 1) / period
  {
    var v := Run(u, wait);
    Settles(u, wait);
    HitsSplit(u, wait, n);
    ResetOnTarget(v, n);
  }

  lemma HitsSplit(u: Counter, m: nat, n: nat)
    ensures Run(u, m + n) == Run(Run(u, m), n) && Hits(u, m + n) == Hits(u, m) + Hits(Run(u, m), n)
  {
    TotalSplits(Tick, HitCount, u, m, n);
    IterateSplits(Tick, u, m, n);
  }

  lemma FreeTick(u: Counter)
    requires !u.mode.resetTarget && !u.resetPending
    ensures Tick(u).value == Next(u.value) && !Tick(u).resetPending
  {
    FiredKeeps(u);
    AfterTargetKeeps(u);
    FiredKeeps(AfterTarget(u));
  }

  /** Whole turns of a 16-bit counter, counted from the target on. */
  function TurnsPast(target: nat, count: nat): nat
    requires target < WRAP
  {
    (count + (WRAP - target)) / WRAP
  }

  lemma TurnCompletes(v: nat, k: nat, target: nat)
    requires v < WRAP && target < WRAP && k % WRAP == v
    ensures TurnsPast(target, k + 1) == TurnsPast(target, k) + (if Next(v) == target then 1 else 0)
  {
    AddDivMod(k + (WRAP - target), WRAP, 1);
    TurnPosition(k, target);
  }

  lemma TurnPosition(k: nat, target: nat)
    requires target < WRAP
    ensures (k + (WRAP - target)) % WRAP == if k % WRAP >= target then k % WRAP - target else k % WRAP + WRAP - target
  {
    AddDivMod(k, WRAP, WRAP - target);
  }

  /** Without reset-on-target the counter runs free, and hits its target once in every turn. */
  lemma {:induction false} FreeRunning(u: Counter, n: nat)
    requires u.Valid() && !u.mode.resetTarget && !u.resetPending
    ensures var r := Run(u, n);
            && !r.resetPending && r.value == (u.value + n) % WRAP
            && Hits(u, n) == TurnsPast(u.target, u.value + n) - TurnsPast(u.target, u.value)
  {
    if n > 0 {
      FreeRunning(u, n - 1);
      RunKeeps(u, n - 1);
      FreeTick(Run(u, n - 1));
      NextCounts(Run(u, n - 1).value, u.value + (n - 1), u.target);
    }
  }

  lemma NextCounts(v: nat, k: nat, target: nat)
    requires target < WRAP && v == k % WRAP
    ensures Next(v) == (k + 1) % WRAP
    ensures TurnsPast(target, k + 1) == TurnsPast(target, k) + (if Next(v) == target then 1 else 0)
  {
    AddDivMod(k, WRAP, 1);
    TurnCompletes(v, k, target);
  }

  // ---- Interrupts ----

  lemma OneShotFired(u: Counter)
    requires !u.mode.repeat
    ensures Fired(u).fired == (u.fired || Asserts(u)) && !Fired(u).mode.repeat
    ensures u.fired ==> !Asserts(u)
  {
  }

  lemma OneShotTick(u: Counter)
    requires !u.mode.repeat
    ensures TickIrqs(u) + (if u.fired then 1 else 0) <= 1
    ensures Tick(u).fired <==> u.fired || TickIrqs(u) == 1
  {
    OneShotFired(u);
    AfterTargetKeeps(u);
    OneShotFired(AfterTarget(u));
  }

  /** One-shot mode: at most one interrupt until the mode register is written again. */
  lemma {:induction false} OneShotOnce(u: Counter, n: nat)
    requires !u.mode.repeat
    ensures Irqs(u, n) + (if u.fired then 1 else 0) <= 1
    ensures Run(u, n).fired <==> u.fired || Irqs(u, n) == 1
  {
    if n > 0 {
      OneShotOnce(u, n - 1);
      RunKeeps(u, n - 1);
      OneShotTick(Run(u, n - 1));
    }
  }

  /** How often a tick calls for an interrupt: at the target, at the overflow, or at both. */
  function ConditionCount(u: Counter): nat {
    (if HitsTarget(u) && u.mode.irqTarget then 1 else 0) + (if Overflows(u) && u.mode.irqOverflow then 1 else 0)
  }

  function Conditions(u: Counter, n: nat): nat { Total(Tick, ConditionCount, u, n) }

  /** They are the target hits and the overflows that the mode asks for. */
  lemma {:induction false} ConditionsAre(u: Counter, n: nat)
    ensures Conditions(u, n)
            == (if u.mode.irqTarget then Hits(u, n) else 0) + (if u.mode.irqOverflow then Wraps(u, n) else 0)
  {
    if n > 0 {
      ConditionsAre(u, n - 1);
      RunKeeps(u, n - 1);
    }
  }

  lemma OneShotStarts(u: Counter)
    requires !u.mode.repeat && !u.fired && u.irqStatus
    ensures TickIrqs(u) == (if ConditionCount(u) == 0 then 0 else 1) && (Tick(u).fired <==> ConditionCount(u) > 0)
    ensures ConditionCount(u) == 0 ==> Tick(u).irqStatus
  {
    AfterTargetKeeps(u);
  }

  /** One-shot mode after a mode write: the interrupt comes with the first condition. */
  lemma {:induction false} OneShotFirst(u: Counter, n: nat)
    requires !u.mode.repeat && !u.fired && u.irqStatus
    ensures Irqs(u, n) == (if Conditions(u, n) == 0 then 0 else 1)
    ensures Run(u, n).fired <==> Conditions(u, n) > 0
    ensures Conditions(u, n) == 0 ==> Run(u, n).irqStatus
  {
    if n > 0 {
      OneShotFirst(u, n - 1);
      RunKeeps(u, n - 1);
      OneShotTick(Run(u, n - 1));
      if Conditions(u, n - 1) == 0 { OneShotStarts(Run(u, n - 1)); }
    }
  }

  lemma ToggleTick(u: Counter)
    requires u.mode.repeat && u.mode.toggle
    ensures Tick(u).irqStatus == (u.irqStatus == (ConditionCount(u) % 2 == 0))
    ensures TickIrqs(u) == (ConditionCount(u) + (if u.irqStatus then 1 else 0)) / 2
  {
    FiredKeeps(u);
    AfterTargetKeeps(u);
  }

  function StatusHigh(u: Counter): bool { u.irqStatus }

  lemma ToggleStatus(u: Counter, n: nat)
    requires u.mode.repeat && u.mode.toggle
    ensures Run(u, n).irqStatus == (u.irqStatus == (Conditions(u, n) % 2 == 0))
  {
    forall k | 0 <= k < n
      ensures TogglesAt(Tick, ConditionCount, StatusHigh, Iterate(Tick, u, k))
    {
      RunKeeps(u, k);
      ToggleTick(Run(u, k));
    }
    TogglesInAll(Tick, ConditionCount, StatusHigh, u, n);
  }

  /** Repeat with toggle: every other condition asserts. */
  lemma {:induction false} RepeatToggle(u: Counter, n: nat)
    requires u.mode.repeat && u.mode.toggle
    ensures Irqs(u, n) == (Conditions(u, n) + (if u.irqStatus then 1 else 0)) / 2
  {
    if n > 0 {
      RepeatToggle(u, n - 1);
      ToggleStatus(u, n - 1);
      RunKeeps(u, n - 1);
      ToggleTick(Run(u, n - 1));
      EveryOther(Conditions(u, n - 1), ConditionCount(Run(u, n - 1)), u.irqStatus);
    }
  }

  lemma EveryOther(h: nat, c: nat, status: bool)
    ensures var now := status == (h % 2 == 0);
            var s, t := if status then 1 else 0, if now then 1 else 0;
            (h + c + s) / 2 == (h + s) / 2 + (c + t) / 2
  {
  }

  lemma PulseTick(u: Counter)
    requires u.mode.repeat && !u.mode.toggle
    ensures TickIrqs(u) == ConditionCount(u)
  {
    AfterTargetKeeps(u);
  }

  /** Repeat with pulses: every condition asserts. */
  lemma {:induction false} RepeatPulse(u: Counter, n: nat)
    requires u.mode.repeat && !u.mode.toggle
    ensures Irqs(u, n) == Conditions(u, n)
  {
    if n > 0 {
      RepeatPulse(u, n - 1);
      RunKeeps(u, n - 1);
      PulseTick(Run(u, n - 1));
    }
  }

  // ---- Overflows ----

  /** Without reset-on-target the counter overflows once for every 2^16 that it counts. */
  lemma {:induction false} FreeWraps(u: Counter, n: nat)
    requires u.Valid() && !u.mode.resetTarget && !u.resetPending
    ensures Wraps(u, n) == (u.value + n) / WRAP
  {
    if n == 0 {
      QuotientUnique(u.value, WRAP, 0);
    } else {
      FreeWraps(u, n - 1);
      FreeRunning(u, n - 1);
      AddDivMod(u.value + (n - 1), WRAP, 1);
    }
  }

  /** With it an aligned counter never overflows, unless its target is 0: then each hit is an overflow. */
  lemma {:induction false} AlignedWraps(u: Counter, n: nat)
    requires Aligned(u)
    ensures Wraps(u, n) == if u.target == 0 then Hits(u, n) else 0
  {
    if n > 0 {
      AlignedWraps(u, n - 1);
      ResetOnTarget(u, n - 1);
      OnlyZeroWraps(Run(u, n - 1));
    }
  }

  lemma OnlyZeroWraps(u: Counter)
    requires Aligned(u)
    ensures Overflows(u) <==> u.target == 0 && HitsTarget(u)
  {
  }

  /** One that first has to settle overflows once on the way, if it settles by wrapping. */
  lemma {:induction false} SettlingWraps(u: Counter, n: nat)
    requires u.Valid() && u.mode.resetTarget && n <= Settling(u)
    ensures Wraps(u, n) == if 0 < n == Settling(u) && !u.resetPending then 1 else 0
  {
    if n > 0 {
      SettlingWraps(u, n - 1);
      Settles(u, n - 1);
    }
  }

  /** Cutting the ticks in two changes neither the counter nor the number of interrupts. */
  lemma RunSplits(u: Counter, m: nat, n: nat)
    ensures Run(u, m + n) == Run(Run(u, m), n)
    ensures Irqs(u, m + n) == Irqs(u, m) + Irqs(Run(u, m), n)
  {
    IterateSplits(Tick, u, m, n);
    TotalSplits(Tick, TickIrqs, u, m, n);
  }

  // ---- Clock sources ----

  predicate External(m: Mode, idx: nat) { (idx == 0 || idx == 1) && m.clockSource % 2 == 1 }

  predicate DivBy8(m: Mode) { m.clockSource >= 2 }

  /** Ticks that a slice of the system clock gives. */
  function Ticks(m: Mode, frac: nat, idx: nat, cycles: nat, dotclockTicks: nat, hblankCount: nat): nat {
    if idx == 0 && External(m, idx) then dotclockTicks
    else if idx == 1 && External(m, idx) then hblankCount
    else if idx == 2 && DivBy8(m) then (frac + cycles) / 8
    else cycles
  }

  /** The divider's remainder after the slice. */
  function Remainder(m: Mode, frac: nat, idx: nat, cycles: nat): nat {
    if External(m, idx) then frac
    else if idx == 2 && DivBy8(m) then (frac + cycles) % 8
    else 0
  }

  function SyncedTicks(u: Unit, idx: nat, ticks: nat, inHblank: bool, inVblank: bool): nat {
    var m := u.count.mode;
    if !m.syncEnable then ticks
    else if idx == 2 then
      if m.syncMode == 0 || m.syncMode == 3 then 0 else ticks
    else
      var inside := if idx == 0 then inHblank else inVblank;
      match m.syncMode
      case 0 => if inside then 0 else ticks
      case 1 => ticks
      case 2 => if inside then ticks else 0
      case 3 => if u.syncStarted then ticks else 0
      case _ => ticks
  }

  function SyncEdge(u: Unit, idx: nat, started: bool): Unit {
    var m := u.count.mode;
    if !m.syncEnable || idx == 2 || !started then u
    else if m.syncMode == 1 || m.syncMode == 2 then u.(count := u.count.(value := 0, resetPending := false))
    else if m.syncMode == 3 then u.(syncStarted := true)
    else u
  }

  /** What a slice of the system looks like to the counters. */
  datatype Slice = Slice(cycles: nat, dotclockTicks: nat, hblankCount: nat,
                         inHblank: bool, vblankStarted: bool, inVblank: bool)

  function SliceTicks(u: Unit, idx: nat, s: Slice): nat {
    SyncedTicks(u, idx, Ticks(u.count.mode, u.fracRem, idx, s.cycles, s.dotclockTicks, s.hblankCount),
                s.inHblank, s.inVblank)
  }

  function Stepped(u: Unit, idx: nat, s: Slice): Unit {
    SyncEdge(Unit(Run(u.count, SliceTicks(u, idx, s)), Remainder(u.count.mode, u.fracRem, idx, s.cycles),
                  u.syncStarted),
             idx, if idx == 0 then s.hblankCount != 0 else s.vblankStarted)
  }

  /** A slice's effect on a counter that is not synchronised: only the number of ticks matters. */
  lemma UnsyncedStep(u: Unit, idx: nat, s: Slice)
    requires !u.count.mode.syncEnable
    ensures Stepped(u, idx, s)
            == Unit(Run(u.count, Ticks(u.count.mode, u.fracRem, idx, s.cycles, s.dotclockTicks, s.hblankCount)),
                    Remainder(u.count.mode, u.fracRem, idx, s.cycles), u.syncStarted)
  {
    RunKeeps(u.count, SliceTicks(u, idx, s));
  }

  lemma EighthsAdd(x: nat, m: nat, n: nat)
    ensures (x + m + n) / 8 == (x + m) / 8 + ((x + m) % 8 + n) / 8
    ensures (x + m + n) % 8 == ((x + m) % 8 + n) % 8
  {
  }

  /** The ticks of two slices add up to those of one, for every clock source. */
  lemma TicksAdd(mode: Mode, frac: nat, idx: nat, m: nat, n: nat, d1: nat, d2: nat, h1: nat, h2: nat)
    ensures var mid := Remainder(mode, frac, idx, m);
            Ticks(mode, frac, idx, m + n, d1 + d2, h1 + h2)
            == Ticks(mode, frac, idx, m, d1, h1) + Ticks(mode, mid, idx, n, d2, h2)
            && Remainder(mode, frac, idx, m + n) == Remainder(mode, mid, idx, n)
  {
    EighthsAdd(frac, m, n);
  }

  /** The second slice goes on where the first, which saw no edge, left the same flags; the whole has their
      cycles and events together. */
  function SlicesJoined(s: Slice, t: Slice): Slice {
    Slice(s.cycles + t.cycles, s.dotclockTicks + t.dotclockTicks, s.hblankCount + t.hblankCount,
          s.inHblank, s.vblankStarted || t.vblankStarted, s.inVblank)
  }

  lemma SyncedTicksAdd(u: Unit, v: Unit, idx: nat, m: nat, n: nat, inHblank: bool, inVblank: bool)
    requires v.count.mode == u.count.mode && v.syncStarted == u.syncStarted
    ensures SyncedTicks(u, idx, m, inHblank, inVblank) + SyncedTicks(v, idx, n, inHblank, inVblank)
            == SyncedTicks(u, idx, m + n, inHblank, inVblank)
  {
  }

  lemma StepWithoutEdge(u: Unit, idx: nat, s: Slice)
    requires s.hblankCount == 0 && !s.vblankStarted
    ensures var v := Stepped(u, idx, s);
            && v == Unit(Run(u.count, SliceTicks(u, idx, s)), Remainder(u.count.mode, u.fracRem, idx, s.cycles),
                         u.syncStarted)
            && v.count.mode == u.count.mode
  {
    RunKeeps(u.count, SliceTicks(u, idx, s));
  }

  lemma SliceTicksAdd(u: Unit, v: Unit, idx: nat, s: Slice, t: Slice)
    requires v.count.mode == u.count.mode && v.syncStarted == u.syncStarted
    requires v.fracRem == Remainder(u.count.mode, u.fracRem, idx, s.cycles)
    requires t.inHblank == s.inHblank && t.inVblank == s.inVblank
    ensures SliceTicks(u, idx, s) + SliceTicks(v, idx, t) == SliceTicks(u, idx, SlicesJoined(s, t))
    ensures Remainder(u.count.mode, v.fracRem, idx, t.cycles)
            == Remainder(u.count.mode, u.fracRem, idx, s.cycles + t.cycles)
  {
    var mode := u.count.mode;
    TicksAdd(mode, u.fracRem, idx, s.cycles, t.cycles, s.dotclockTicks, t.dotclockTicks, s.hblankCount, t.hblankCount);
    var m, n := Ticks(mode, u.fracRem, idx, s.cycles, s.dotclockTicks, s.hblankCount),
                Ticks(mode, v.fracRem, idx, t.cycles, t.dotclockTicks, t.hblankCount);
    SyncedTicksAdd(u, v, idx, m, n, s.inHblank, s.inVblank);
  }

  /** Cutting a slice before its end changes nothing for a counter, synchronised or not: the flags are those
      of its start, and its edges come at its end. */
  lemma StepsJoin(u: Unit, idx: nat, s: Slice, t: Slice)
    requires s.hblankCount == 0 && !s.vblankStarted && t.inHblank == s.inHblank && t.inVblank == s.inVblank
    ensures Stepped(Stepped(u, idx, s), idx, t) == Stepped(u, idx, SlicesJoined(s, t))
  {
    var v := Stepped(u, idx, s);
    StepWithoutEdge(u, idx, s);
    SliceTicksAdd(u, v, idx, s, t);
    RunSplits(u.count, SliceTicks(u, idx, s), SliceTicks(v, idx, t));
    assert Run(v.count, SliceTicks(v, idx, t)) == Run(u.count, SliceTicks(u, idx, SlicesJoined(s, t)));
  }

  // ---- The /8 divider ----

  /** Ticks delivered over a sequence of slices, and the final remainder. */
  function DividedTicks(frac: nat, cs: seq<nat>): (nat, nat) {
    if cs == [] then (0, frac)
    else
      var m := |cs| - 1;
      var (ticks, rem) := DividedTicks(frac, cs[..m]);
      (ticks + (rem + cs[m]) / 8, (rem + cs[m]) % 8)
  }

  /** However the cycles are cut up, one tick comes for every eight of them. */
  lemma {:induction false} DividerLosesNothing(frac: nat, cs: seq<nat>)
    requires frac < 8
    ensures DividedTicks(frac, cs) == ((frac + Sum(cs)) / 8, (frac + Sum(cs)) % 8)
  {
    if cs != [] {
      DividerLosesNothing(frac, cs[..|cs| - 1]);
    }
  }

  // ---- The counter as an object ----

  function SourceOf(idx: nat): Source { if idx == 0 then Timer0 else if idx == 1 then Timer1 else Timer2 }

  /** What a tick asserts: the target check comes first. */
  lemma TickLines(u: Counter, l: Lines, s: Source)
    ensures var hit, over := HitsTarget(u) && u.mode.irqTarget && Asserts(u),
                             Overflows(u) && u.mode.irqOverflow && Asserts(AfterTarget(u));
            l.After(Copies(s, TickIrqs(u))) == l.AfterIf(hit, s).AfterIf(over, s)
  {
    var hit, over := HitsTarget(u) && u.mode.irqTarget && Asserts(u),
                     Overflows(u) && u.mode.irqOverflow && Asserts(AfterTarget(u));
    AfterOne(l, hit, s);
    AfterOne(l.AfterIf(hit, s), over, s);
    MoreCopies(l, s, if hit then 1 else 0, if over then 1 else 0);
  }

  lemma OneMoreTick(u: Counter, n: nat)
    ensures Run(u, n + 1) == Tick(Run(u, n)) && Irqs(u, n + 1) == Irqs(u, n) + TickIrqs(Run(u, n))
  {
  }

  class TimerUnit {
    var mode: Mode
    var target: nat
    var value: nat
    var irqStatus: bool
    var targetReached: bool
    var overflowReached: bool
    var fired: bool
    var resetPending: bool
    var fracRem: nat
    var syncStarted: bool

    function Count(): Counter
      reads this
    {
      Counter(mode, target, value, irqStatus, targetReached, overflowReached, fired, resetPending)
    }

    function State(): Unit
      reads this
    {
      Unit(Count(), fracRem, syncStarted)
    }

    constructor ()
      ensures State() == Unit(Counter(Mode(false, 0, false, false, false, false, false, 0),
                                      0, 0, false, false, false, false, false), 0, false)
    {
      mode := Mode(false, 0, false, false, false, false, false, 0);
      target, value, irqStatus, targetReached, overflowReached := 0, 0, false, false, false;
      fired, resetPending, fracRem, syncStarted := false, false, 0, false;
    }

    /** Writing the mode register restarts the counter, re-arms one-shot mode and cancels the counter's
        scheduler event. */
    method StoreMode(idx: nat, m: Mode, sched: Scheduling.Scheduler)
      requires idx < 3 && sched.Valid()
      modifies this, sched.events
      ensures State() == Unit(Counter(m, old(target), 0, true, false, false, false, false), 0, false)
      ensures sched.events[..] == old(sched.events[..])[1 + idx := old(sched.events[1 + idx]).(active := false)]
    {
      value, fracRem, fired, syncStarted, resetPending := 0, 0, false, false, false;
      mode, targetReached, overflowReached, irqStatus := m, false, false, true;
      sched.Cancel(1 + idx);
    }

    method FireIrq(idx: nat, irq: Irq)
      modifies this`value, this`irqStatus, this`targetReached, this`overflowReached, this`fired, this`resetPending, irq
      ensures Count() == Fired(old(Count()))
      ensures irq.State() == old(irq.State()).AfterIf(Asserts(old(Count())), SourceOf(idx))
    {
      if !mode.repeat && fired { return; }
      if mode.toggle {
        irqStatus := !irqStatus;
        if !irqStatus {
          irq.Assert(SourceOf(idx));
          fired := true;
        }
      } else {
        irqStatus := false;
        irq.Assert(SourceOf(idx));
        irqStatus := true;
        fired := true;
      }
    }

    /** Tick by tick, with every interrupt of the specification asserted and no other. */
    method Advance(idx: nat, ticks: nat, irq: Irq)
      modifies this`value, this`irqStatus, this`targetReached, this`overflowReached, this`fired, this`resetPending, irq
      ensures Count() == Run(old(Count()), ticks)
      ensures irq.State() == old(irq.State()).After(Copies(SourceOf(idx), Irqs(old(Count()), ticks)))
    {
      var left := ticks;
      ghost var done, was, lines := 0, Count(), irq.State();
      AfterNone(lines);
      assert Copies(SourceOf(idx), 0) == [];
      while left > 0
        invariant 0 <= done && left + done == ticks && Count() == Run(was, done)
        invariant irq.State() == lines.After(Copies(SourceOf(idx), Irqs(was, done)))
      {
        CountNext(idx, irq, was, done, lines);
        left, done := left - 1, done + 1;
      }
    }

    /** One round of the loop, with the account of the rounds before it. */
    method CountNext(idx: nat, irq: Irq, ghost was: Counter, ghost done: nat, ghost lines: Lines)
      requires Count() == Run(was, done) && irq.State() == lines.After(Copies(SourceOf(idx), Irqs(was, done)))
      modifies this`value, this`irqStatus, this`targetReached, this`overflowReached, this`fired, this`resetPending, irq
      ensures Count() == Run(was, done + 1)
      ensures irq.State() == lines.After(Copies(SourceOf(idx), Irqs(was, done + 1)))
    {
      OneMoreTick(was, done);
      MoreCopies(lines, SourceOf(idx), Irqs(was, done), TickIrqs(Run(was, done)));
      CountOne(idx, irq);
    }

    /** One round of the loop. */
    method CountOne(idx: nat, irq: Irq)
      modifies this`value, this`irqStatus, this`targetReached, this`overflowReached, this`fired, this`resetPending, irq
      ensures Count() == Tick(old(Count()))
      ensures irq.State() == old(irq.State()).After(Copies(SourceOf(idx), TickIrqs(old(Count()))))
    {
      ghost var u, lines := Count(), irq.State();
      TickLines(u, lines, SourceOf(idx));
      if resetPending {
        value, resetPending := 0, false;
        return;
      }
      var oldValue := value;
      CheckTarget(idx, irq);
      if oldValue == WRAP - 1 { NoteOverflow(idx, irq); }
    }

    method NoteOverflow(idx: nat, irq: Irq)
      modifies this`value, this`irqStatus, this`targetReached, this`overflowReached, this`fired, this`resetPending, irq
      ensures Count() == AfterOverflow(old(Count()))
      ensures irq.State() == old(irq.State()).AfterIf(mode.irqOverflow && Asserts(old(Count())), SourceOf(idx))
    {
      overflowReached := true;
      if mode.irqOverflow { FireIrq(idx, irq); }
    }

    /** Counting up and the target comparison. */
    method CheckTarget(idx: nat, irq: Irq)
      requires !resetPending
      modifies this`value, this`irqStatus, this`targetReached, this`overflowReached, this`fired, this`resetPending, irq
      ensures Count() == AfterTarget(old(Count()))
      ensures irq.State() == old(irq.State()).AfterIf(HitsTarget(old(Count())) && mode.irqTarget
                                                      && Asserts(old(Count())), SourceOf(idx))
    {
      value := Next(value);
      if value == target {
        targetReached := true;
        if mode.irqTarget { FireIrq(idx, irq); }
        if mode.resetTarget { resetPending := true; }
      }
    }

    /** The clock source: how many ticks a slice gives. */
    method TakeTicks(idx: nat, s: Slice) returns (ticks: nat)
      modifies this`fracRem
      ensures ticks == Ticks(mode, old(fracRem), idx, s.cycles, s.dotclockTicks, s.hblankCount)
      ensures fracRem == Remainder(mode, old(fracRem), idx, s.cycles)
    {
      var external := (idx == 0 || idx == 1) && mode.clockSource % 2 == 1;
      if idx == 0 && external { return s.dotclockTicks; }
      if idx == 1 && external { return s.hblankCount; }
      if idx == 2 && mode.clockSource >= 2 {
        var total := fracRem + s.cycles;
        fracRem := total % 8;
        return total / 8;
      }
      fracRem := 0;
      return s.cycles;
    }

    method ApplyEdge(idx: nat, started: bool)
      modifies this
      ensures State() == SyncEdge(old(State()), idx, started)
    {
      if !mode.syncEnable || idx == 2 || !started { return; }
      if mode.syncMode == 1 || mode.syncMode == 2 {
        value, resetPending := 0, false;
      } else if mode.syncMode == 3 {
        syncStarted := true;
      }
    }

    /** One slice: clock source, synchronisation, counting, then the effect of a blanking edge. */
    method Step(idx: nat, s: Slice, irq: Irq)
      modifies this, irq
      ensures State() == Stepped(old(State()), idx, s)
      ensures irq.State()
              == old(irq.State()).After(Copies(SourceOf(idx), Irqs(old(Count()), SliceTicks(old(State()), idx, s))))
    {
      var ticks := TakeTicks(idx, s);
      ticks := SyncedTicks(State(), idx, ticks, s.inHblank, s.inVblank);
      Advance(idx, ticks, irq);
      ApplyEdge(idx, if idx == 0 then s.hblankCount != 0 else s.vblankStarted);
    }
  }
}
