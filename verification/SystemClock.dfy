/** The main loop's clock: cycles are handed to the devices in slices that no event falls inside.
 */
module SystemClock {
  import opened EventAccount
  import opened Interrupts
  import opened Iteration
  import opened Scheduling
  import opened Slicing
  import opened IrqAccount
  import G = GpuClock
  import S = SerialPort
  import T = Timer
  import Cd = CdProtocol
  import CdRuns
  import CdRom
  import opened Words

  function DueCount(events: seq<Event>, now: nat): nat {
    if events == [] then 0
    else DueCount(events[..|events| - 1], now) + (if Due(events[|events| - 1], now) then 1 else 0)
  }

  lemma {:induction false} NoneDue(events: seq<Event>, now: nat)
    requires forall i :: 0 <= i < |events| ==> !Due(events[i], now)
    ensures DueCount(events, now) == 0
  {
    if events != [] { NoneDue(events[..|events| - 1], now); }
  }

  lemma {:induction false} SomeDue(events: seq<Event>, now: nat, i: nat)
    requires i < |events| && Due(events[i], now)
    ensures DueCount(events, now) > 0
  {
    if i < |events| - 1 { SomeDue(events[..|events| - 1], now, i); }
  }

  /** The books of a run of the loop: the cycles to hand out, when and from where it began, the slices, the firings
      and the interrupts so far, those of the controller by themselves, and whether a round has been made. */
  datatype Ledger = Ledger(cycles: nat, since: nat, was: Devices, lines: Lines,
                           account: (Agenda, nat, seq<Firing>, nat) -> bool,
                           slices: seq<nat>, fires: seq<Firing>, raised: seq<Source>, cdRaises: nat, begun: bool)
  {
    /** Everything due before this has fired. */
    function Bound(now: nat): nat { if begun then now + 1 else now }

    /** The books of a later moment of the same run. */
    ghost predicate Continues(l: Ledger) {
      cycles == l.cycles && since == l.since && was == l.was && lines == l.lines && account == l.account
    }

    /** The books were opened here. */
    ghost predicate Began(disc: Cd.Disc, a: Agenda, now: nat, d: Devices, at: Lines, total: nat) {
      cycles == total && since == now && was == d && lines == at && account == AccountSince(disc, a)
    }

    predicate Adds(left: int, now: nat) {
      && 0 <= left <= cycles && Sum(slices) + left == cycles && now + left == since + cycles
      && (if begun then cycles > 0 else left == cycles)
    }

    /** After a round; one of length zero makes no slice. */
    function Entered(slice: nat, fired: seq<Firing>, more: seq<Source>, cdRaised: nat): Ledger {
      this.(slices := if slice > 0 then slices + [slice] else slices, fires := fires + fired,
            raised := raised + more, cdRaises := cdRaises + cdRaised, begun := true)
    }

    /** The interrupt lines are up as the books say, and every interrupt is accounted for. */
    ghost predicate Hears(now: Lines) {
      now == lines.After(raised) && Counted(raised, was, slices, fires, cdRaises)
    }

    lemma EntryHears(now: Lines, d: Devices, slice: nat, fired: seq<Firing>, more: seq<Source>, cdRaised: nat)
      requires Hears(now) && Reaches(d) && RoundHeard(d, slice, fired, cdRaised)(more)
      ensures Entered(slice, fired, more, cdRaised).Hears(now.After(more))
    {
      AfterBoth(lines, raised, more);
      RoundAdds(raised, was, slices, fires, cdRaises, more, slice, fired, cdRaised);
    }

    predicate Reaches(d: Devices) { d == AfterSlices(was, slices) && WithinBoundaries(was, slices) }

    lemma EntryReaches(d: Devices, slice: nat, fired: seq<Firing>, more: seq<Source>, cdRaised: nat)
      requires Reaches(d) && slice <= G.CyclesUntilBoundary(d.gpu)
      ensures Entered(slice, fired, more, cdRaised).Reaches(DevicesAfter(d, slice))
    {
      if slice > 0 { AppendSlice(was, slices, slice); }
    }

    lemma EntryAdds(left: nat, slice: nat, now: nat, fired: seq<Firing>, more: seq<Source>, cdRaised: nat)
      requires Adds(left, now) && 0 < left && slice <= left
      ensures Entered(slice, fired, more, cdRaised).Adds(left - slice, now + slice)
    {
      OneMore(was, slices, slice);
    }
  }

  /** The books agree with the machine: what is left to hand out and the time, the devices, the interrupt lines. */
  ghost function BalanceOf(l: Ledger): (int, nat, Devices, Lines) -> bool {
    (left: int, now: nat, d: Devices, lines: Lines) => l.Adds(left, now) && l.Reaches(d) && l.Hears(lines)
  }

  /** A round is entered in the books. */
  lemma Enter(l: Ledger, left: nat, now: nat, d: Devices, lines: Lines, slice: nat, fired: seq<Firing>,
              more: seq<Source>, cdRaised: nat, b: Agenda, rest: nat, later: nat, e: Devices, after: Lines)
    returns (m: Ledger)
    requires BalanceOf(l)(left, now, d, lines) && 0 < left
    requires rest + slice == left && slice <= G.CyclesUntilBoundary(d.gpu)
    requires RoundHeard(d, slice, fired, cdRaised)(more)
    requires later == now + slice && e == DevicesAfter(d, slice) && after == lines.After(more)
    requires l.account(b, later + 1, l.fires + fired, l.cdRaises + cdRaised)
    ensures BalanceOf(m)(rest, later, e, after) && m.Continues(l) && m.begun
    ensures m.account(b, m.Bound(later), m.fires, m.cdRaises)
  {
    m := l.Entered(slice, fired, more, cdRaised);
    EntryBalances(l, left, now, d, lines, slice, fired, more, cdRaised, rest, later, e, after);
    AccountEntered(l, slice, fired, more, cdRaised, b, later);
  }

  lemma EntryBalances(l: Ledger, left: nat, now: nat, d: Devices, lines: Lines, slice: nat, fired: seq<Firing>,
                      more: seq<Source>, cdRaised: nat, rest: nat, later: nat, e: Devices, after: Lines)
    requires BalanceOf(l)(left, now, d, lines) && 0 < left
    requires rest + slice == left && slice <= G.CyclesUntilBoundary(d.gpu)
    requires RoundHeard(d, slice, fired, cdRaised)(more)
    requires later == now + slice && e == DevicesAfter(d, slice) && after == lines.After(more)
    ensures BalanceOf(l.Entered(slice, fired, more, cdRaised))(rest, later, e, after)
  {
    l.EntryAdds(left, slice, now, fired, more, cdRaised);
    l.EntryReaches(d, slice, fired, more, cdRaised);
    l.EntryHears(lines, d, slice, fired, more, cdRaised);
    Balances(l.Entered(slice, fired, more, cdRaised), rest, later, e, after);
  }

  lemma AccountEntered(l: Ledger, slice: nat, fired: seq<Firing>, more: seq<Source>, cdRaised: nat, b: Agenda,
                       later: nat)
    requires l.account(b, later + 1, l.fires + fired, l.cdRaises + cdRaised)
    ensures var m := l.Entered(slice, fired, more, cdRaised);
            m.Continues(l) && m.begun && m.account(b, m.Bound(later), m.fires, m.cdRaises)
  {
  }

  lemma EnterRound(l: Ledger, disc: Cd.Disc, left: nat, a: Agenda, now: nat, d: Devices, lines: Lines, slice: nat,
                   fired: seq<Firing>, b: Agenda, rest: nat, later: nat, e: Devices, after: Lines)
    returns (m: Ledger)
    requires BalanceOf(l)(left, now, d, lines) && 0 < left
    requires l.account(a, l.Bound(now), l.fires, l.cdRaises) && KeptBy(disc)(l.account)
    requires disc.Valid() && |a.events| == EVENT_COUNT
    requires RoundOf(disc)(a, later, b, fired, CdRaised(disc, a, later))
    requires rest + slice == left && slice <= G.CyclesUntilBoundary(d.gpu)
    requires later == now + slice && e == DevicesAfter(d, slice)
    requires after == lines.After(RoundRaises(disc, a, later, d, slice))
    ensures BalanceOf(m)(rest, later, e, after) && m.Continues(l) && m.begun
    ensures m.account(b, m.Bound(later), m.fires, m.cdRaises)
  {
    var cdRaised := CdRaised(disc, a, later);
    RoundAccounted(disc, a, later, b, d, slice, fired);
    RoundKeeps(disc, l.account, a, l.Bound(now), l.fires, l.cdRaises, later, b, fired, cdRaised);
    m := Enter(l, left, now, d, lines, slice, fired, RoundRaises(disc, a, later, d, slice), cdRaised, b, rest, later, e,
               after);
  }

  lemma Balances(m: Ledger, left: nat, now: nat, d: Devices, lines: Lines)
    requires m.Adds(left, now) && m.Reaches(d) && m.Hears(lines)
    ensures BalanceOf(m)(left, now, d, lines)
  {
  }

  lemma OpenBooks(disc: Cd.Disc, a: Agenda, now: nat, d: Devices, lines: Lines, cycles: nat) returns (l: Ledger)
    requires disc.Valid() && GoodPlan()(a) && NoneOverdue(a.events, now)
    ensures BalanceOf(l)(cycles, now, d, lines) && !l.begun && l.Began(disc, a, now, d, lines, cycles)
    ensures l.account(a, l.Bound(now), l.fires, l.cdRaises) && KeptBy(disc)(l.account)
  {
    l := Ledger(cycles, now, d, lines, AccountSince(disc, a), [], [], [], 0, false);
    AccountBegins(disc, a, now);
    AccountKept(disc, a);
    NoSlices(d);
    NothingRaised(d);
    AfterNone(lines);
    assert l.Adds(cycles, now) && l.Reaches(d) && l.Hears(lines);
    Balances(l, cycles, now, d, lines);
  }

  lemma CloseBooks(l: Ledger, m: Ledger, disc: Cd.Disc, a: Agenda, since: nat, was: Devices, up: Lines, cycles: nat,
                   b: Agenda, now: nat, d: Devices, lines: Lines)
    requires l.Began(disc, a, since, was, up, cycles) && m.Continues(l) && Steady(was.gpu)
    requires BalanceOf(m)(0, now, d, lines) && m.account(b, m.Bound(now), m.fires, m.cdRaises)
    ensures AccountSince(disc, a)(b, BoundAfter(cycles, now), m.fires, m.cdRaises)
    ensures Sum(m.slices) == cycles && now == since + cycles && (m.begun <==> cycles > 0)
    ensures d == AfterSlices(was, m.slices) && WithinBoundaries(was, m.slices)
    ensures lines == up.After(m.raised)
    ensures Raised(m.raised, was, cycles, m.slices, m.fires, m.cdRaises)
  {
    CountsMean(m.raised, was, m.slices, m.fires, m.cdRaises);
  }

  /** Everything due before this has fired once `cycles` have been handed out and the time is `now`. */
  function BoundAfter(cycles: nat, now: nat): nat { if cycles > 0 then now + 1 else now }

  /** A counter whose mode has just been written: it starts from 0, ready to fire, with its target as it was. */
  function Restarted(m: T.Mode, target: nat): T.Unit {
    T.Unit(T.Counter(m, target, 0, true, false, false, false, false), 0, false)
  }

  class Machine {
    const sched: Scheduler
    const gpu: G.VideoClock
    const timer0: T.TimerUnit
    const timer1: T.TimerUnit
    const timer2: T.TimerUnit
    const cd: CdRom.Cdrom
    const irq: Irq
    var serial: S.Signal

    ghost predicate Valid()
      reads this, sched, sched.events, gpu, cd, cd.ring, cd.ring.slots
    {
      ValidDevices() && ValidEvents() && NoneOverdue(sched.events[..], sched.currentCycle)
    }

    ghost predicate ValidDevices()
      reads gpu
    {
      gpu.State().Normal() && gpu.frames < G.U32
      && timer0 != timer1 && timer0 != timer2 && timer1 != timer2
    }

    /** The scheduler's events and the controller, as the account of a run sees them. */
    ghost function Plan(): Agenda
      reads sched, sched.events, cd, cd.ring
    {
      Agenda(sched.events[..], cd.State())
    }

    /** The controller's scheduler event is armed exactly while it has something queued. */
    ghost predicate ValidEvents()
      reads sched, sched.events, cd, cd.ring, cd.ring.slots
    {
      sched.Valid() && cd.Valid() && GoodPlan()(Plan())
    }

    function Timers(): (T.Unit, T.Unit, T.Unit)
      reads timer0, timer1, timer2
    {
      (timer0.State(), timer1.State(), timer2.State())
    }

    /** Events that are due and have not fired. */
    ghost function DueNow(): nat
      reads sched, sched.events
    {
      DueCount(sched.events[..], sched.currentCycle)
    }

    function State(): Devices
      reads this, gpu, timer0, timer1, timer2
    {
      Devices(gpu.State(), Timers(), serial)
    }

    constructor (mode: G.VideoMode, disc: Cd.Disc)
      requires disc.Valid()
      ensures ValidDevices() && sched.Valid() && cd.Valid() // with the next line: Valid()
      ensures GoodPlan()(Plan()) && NoneOverdue(sched.events[..], sched.currentCycle)
    {
      sched := new Scheduler();
      gpu := new G.VideoClock(mode);
      timer0 := new T.TimerUnit();
      timer1 := new T.TimerUnit();
      timer2 := new T.TimerUnit();
      cd := new CdRom.Cdrom(disc);
      irq := new Irq();
      serial := S.Signal(false, false, 0, 0, 0x88);
      new;
      AllDisarmed(sched.events[..], sched.currentCycle);
    }

    // ---- What the processor does between steps ----

    /** Writing the CD-ROM controller's command register. */
    method CdCommand(cmd: Byte, report: seq<Byte>)
      requires Valid()
      modifies cd, cd.ring, cd.ring.slots, sched.events
      ensures Valid()
      ensures Plan() == AfterAccess(cd.disc, old(Plan()), sched.currentCycle, CdRuns.WriteCommand(cmd, report))
    {
      AccessKeepsGood(cd.disc, Plan(), sched.currentCycle, CdRuns.WriteCommand(cmd, report));
      cd.WriteCommand(sched, cmd, report);
    }

    /** Acknowledging its interrupt. */
    method CdAcknowledge(val: Byte, report: seq<Byte>)
      requires Valid()
      modifies cd, cd.ring, cd.ring.slots, sched.events, irq
      ensures Valid()
      ensures Plan() == AfterAccess(cd.disc, old(Plan()), sched.currentCycle, CdRuns.WriteIrqFlag(val, report))
      ensures irq.State() == old(irq.State()).LoweredIf(Cd.Cleared(old(cd.State()), val).irqFlag == 0, Source.Cdrom)
    {
      AccessKeepsGood(cd.disc, Plan(), sched.currentCycle, CdRuns.WriteIrqFlag(val, report));
      cd.WriteIrqFlag(sched, irq, val, report);
    }

    method CdParameter(v: Byte)
      requires Valid()
      modifies cd
      ensures Valid() && Plan() == AfterAccess(cd.disc, old(Plan()), sched.currentCycle, CdRuns.WriteParam(v))
    {
      AccessKeepsGood(cd.disc, Plan(), sched.currentCycle, CdRuns.WriteParam(v));
      cd.WriteParam(v);
    }

    /** Arming one of the one-shot events. */
    method Arm(i: nat, delta: nat)
      requires Valid() && i < EVENT_COUNT && i != EVENT_CDROM
      modifies sched.events
      ensures Valid() && cd.State() == old(cd.State())
      ensures sched.events[..] == old(sched.events[..])[i := Event(true, sched.currentCycle + delta)]
    {
      sched.Schedule(i, delta);
    }

    /** Writing the mode register of a counter. */
    method CounterMode(idx: nat, m: T.Mode)
      requires Valid() && idx < 3
      modifies timer0, timer1, timer2, sched.events
      ensures Valid() && cd.State() == old(cd.State())
      ensures sched.events[..] == old(sched.events[..])[1 + idx := old(sched.events[1 + idx]).(active := false)]
      ensures forall i :: 0 <= i < 3 ==>
                TimerOf(State(), i) == if i == idx then Restarted(m, old(TimerOf(State(), idx)).count.target)
                                       else old(TimerOf(State(), i))
    {
      if idx == 0 {
        timer0.StoreMode(0, m, sched);
      } else if idx == 1 {
        timer1.StoreMode(1, m, sched);
      } else {
        timer2.StoreMode(2, m, sched);
      }
    }

    /** A byte on the serial port starts the countdown to its acknowledge. */
    method StartSerial()
      requires Valid()
      modifies this`serial
      ensures Valid() && serial == old(serial).(countdown := old(serial).ByteCycles())
    {
      serial := serial.(countdown := serial.ByteCycles());
    }

    // ---- The loop ----

    method StepSio(slice: nat)
      modifies this`serial, irq
      ensures serial == old(serial).Elapsed(slice)
      ensures irq.State() == old(irq.State()).AfterIf(serial.irqPending, Source.Sio)
    {
      serial := serial.Elapsed(slice);
      if serial.irqPending { irq.Assert(Source.Sio); }
    }

    method StepTimers(s: T.Slice)
      requires timer0 != timer1 && timer0 != timer2 && timer1 != timer2
      modifies timer0, timer1, timer2, irq
      ensures Timers() == TimersAfter(old(Timers()), s)
      ensures irq.State() == old(irq.State()).After(TimersRaise(old(Timers()), s))
    {
      ghost var lines, t := irq.State(), Timers();
      timer0.Step(0, s, irq);
      timer1.Step(1, s, irq);
      timer2.Step(2, s, irq);
      TimersHeard(lines, t, s);
    }

    /** The devices' share of a slice: the blanking flags are sampled before the video clock moves. */
    method StepDevices(slice: nat)
      requires ValidDevices()
      modifies this, gpu, timer0, timer1, timer2, irq
      ensures ValidDevices() && State() == DevicesAfter(old(State()), slice)
      ensures irq.State() == old(irq.State()).After(SliceRaises(old(State()), slice))
    {
      SliceHeard(irq.State(), State(), slice);
      if slice == 0 { return; }
      ghost var before := gpu.State();
      var inHblank, inVblank := gpu.hblank, gpu.scanline >= G.FIRST_VBLANK_LINE;
      var e := gpu.Step(slice);
      var s := T.Slice(slice, e.dotclockTicks, e.hblankCount, inHblank, e.vblankStarted, inVblank);
      assert s == SliceAt(before, slice);
      StepTimers(s);
      StepSio(slice);
      if e.vblankStarted { irq.Assert(Source.Vblank); }
    }

    /** How far the next slice may go. */
    method ChooseSlice(remaining: nat) returns (slice: nat)
      requires Valid() && remaining > 0
      ensures slice <= remaining && slice <= G.CyclesUntilBoundary(gpu.State())
      ensures NoneOverdue(sched.events[..], sched.currentCycle + slice)
      ensures slice == 0 ==> DueNow() > 0
      ensures serial.countdown > 0 ==> slice <= serial.countdown
    {
      slice := remaining;
      var untilEvent := sched.CyclesUntilNext();
      if untilEvent < slice { slice := untilEvent; }
      G.BoundaryIsExact(gpu.State(), 0);
      var untilGpu := G.CyclesUntilBoundary(gpu.State());
      if untilGpu < slice { slice := untilGpu; }
      var untilSio := if serial.countdown != 0 then serial.countdown else U32_MAX;
      if untilSio < slice { slice := untilSio; }
      if slice == 0 {
        ghost var i :| 0 <= i < EVENT_COUNT && Due(sched.events[i], sched.currentCycle);
        SomeDue(sched.events[..], sched.currentCycle, i);
      }
    }

    /** The scheduler's step, when nothing falls due inside it. */
    method FireDue(slice: nat) returns (cdDue: bool, ghost fires: seq<Firing>)
      requires ValidEvents() && NoneOverdue(sched.events[..], sched.currentCycle + slice)
      modifies sched`currentCycle, sched.events, irq
      ensures sched.currentCycle == old(sched.currentCycle) + slice
      ensures StepOf()(old(Plan()), sched.currentCycle, sched.events[..], fires, cdDue)
      ensures irq.State() == old(irq.State()).After(RaisedBy(old(sched.events[..]), sched.currentCycle, EVENT_COUNT))
    {
      ghost var was := sched.events[..];
      var fired := sched.Step(slice, irq);
      fires := FiredAt(was, sched.currentCycle);
      FiredAtWell(was, sched.currentCycle);
      cdDue := EVENT_CDROM in fired;
    }

    /** The scheduler's step and the devices' share of the slice. */
    method FireAndStep(slice: nat) returns (cdDue: bool, ghost fires: seq<Firing>)
      requires ValidDevices() && ValidEvents() && NoneOverdue(sched.events[..], sched.currentCycle + slice)
      modifies this, sched`currentCycle, sched.events, gpu, timer0, timer1, timer2, irq
      ensures ValidDevices() && State() == DevicesAfter(old(State()), slice)
      ensures sched.currentCycle == old(sched.currentCycle) + slice
      ensures StepOf()(old(Plan()), sched.currentCycle, sched.events[..], fires, cdDue)
      ensures irq.State() == old(irq.State()).After(RaisedBy(old(sched.events[..]), sched.currentCycle, EVENT_COUNT)
                                                    + SliceRaises(old(State()), slice))
    {
      ghost var lines, was := irq.State(), sched.events[..];
      cdDue, fires := FireDue(slice);
      assert State() == old(State());
      StepDevices(slice);
      AfterBoth(lines, RaisedBy(was, sched.currentCycle, EVENT_COUNT), SliceRaises(old(State()), slice));
    }

    /** The CD-ROM callback, if its event has fired: it completes the round that began at `was`. */
    method HandleFired(cdDue: bool, ghost was: Agenda, ghost fires: seq<Firing>)
      requires cd.Valid() && was.drive == cd.State()
      requires StepOf()(was, sched.currentCycle, sched.events[..], fires, cdDue)
      modifies cd, cd.ring, cd.ring.slots, sched.events, irq
      ensures ValidEvents() && AllAhead(sched.events[..], sched.currentCycle)
      ensures RoundOf(cd.disc)(was, sched.currentCycle, Plan(), fires, CdRaised(cd.disc, was, sched.currentCycle))
      ensures irq.State()
              == old(irq.State()).After(Copies(Source.Cdrom, CdRaised(cd.disc, was, sched.currentCycle)))
    {
      ghost var stepped := Plan();
      CallbackHeard(irq.State(), cd.disc, was, sched.currentCycle, stepped.events, fires, cdDue);
      if cdDue {
        cd.OnSchedulerEvent(irq, sched);
      }
      RoundDone(cd.disc, was, sched.currentCycle, stepped, Plan(), fires, cdDue);
    }

    /** A round of this length. */
    method RoundOfLength(slice: nat) returns (ghost fires: seq<Firing>)
      requires ValidDevices() && ValidEvents() && NoneOverdue(sched.events[..], sched.currentCycle + slice)
      modifies this, sched`currentCycle, sched.events, gpu, timer0, timer1, timer2, cd, cd.ring, cd.ring.slots, irq
      ensures ValidDevices() && ValidEvents() && AllAhead(sched.events[..], sched.currentCycle)
      ensures sched.currentCycle == old(sched.currentCycle) + slice && State() == DevicesAfter(old(State()), slice)
      ensures RoundOf(cd.disc)(old(Plan()), sched.currentCycle, Plan(), fires,
                               CdRaised(cd.disc, old(Plan()), sched.currentCycle))
      ensures irq.State()
              == old(irq.State()).After(RoundRaises(cd.disc, old(Plan()), sched.currentCycle, old(State()), slice))
    {
      ghost var was, lines, d := Plan(), irq.State(), State();
      var cdDue;
      cdDue, fires := FireAndStep(slice);
      HandleFired(cdDue, was, fires);
      RoundLines(lines, cd.disc, was, sched.currentCycle, d, slice);
    }

    /** One round of the loop. A round of length zero only fires what is due. */
    method OneRound(remaining: nat) returns (slice: nat, ghost fires: seq<Firing>)
      requires Valid() && remaining > 0
      modifies this, sched`currentCycle, sched.events, gpu, timer0, timer1, timer2, cd, cd.ring, cd.ring.slots, irq
      ensures Valid() && AllAhead(sched.events[..], sched.currentCycle) && DueNow() == 0
      ensures slice <= remaining && sched.currentCycle == old(sched.currentCycle) + slice
      ensures slice == 0 ==> old(DueNow()) > 0
      ensures slice <= G.CyclesUntilBoundary(old(gpu.State())) && State() == DevicesAfter(old(State()), slice)
      ensures RoundOf(cd.disc)(old(Plan()), sched.currentCycle, Plan(), fires,
                               CdRaised(cd.disc, old(Plan()), sched.currentCycle))
      ensures irq.State()
              == old(irq.State()).After(RoundRaises(cd.disc, old(Plan()), sched.currentCycle, old(State()), slice))
    {
      slice := ChooseSlice(remaining);
      fires := RoundOfLength(slice);
      AheadNoneDue(sched.events[..], sched.currentCycle);
    }

    /** One turn of the loop: time passes, or all that was due has fired. The books stay in balance. */
    method Turn(left: nat, ghost l: Ledger) returns (less: nat, ghost m: Ledger)
      requires left > 0 && Valid() && BalanceOf(l)(left, sched.currentCycle, State(), irq.State())
      requires l.account(Plan(), l.Bound(sched.currentCycle), l.fires, l.cdRaises) && KeptBy(cd.disc)(l.account)
      modifies this, sched`currentCycle, sched.events, gpu, timer0, timer1, timer2, cd, cd.ring, cd.ring.slots, irq
      ensures Valid() && AllAhead(sched.events[..], sched.currentCycle)
      ensures BalanceOf(m)(less, sched.currentCycle, State(), irq.State()) && m.Continues(l) && m.begun
      ensures m.account(Plan(), m.Bound(sched.currentCycle), m.fires, m.cdRaises)
      ensures DueNow() == 0 && (less < left || (less == left && 0 < old(DueNow())))
    {
      ghost var a, d, now, lines := Plan(), State(), sched.currentCycle, irq.State();
      var slice;
      ghost var fired;
      slice, fired := OneRound(left);
      less := left - slice;
      m := EnterRound(l, cd.disc, left, a, now, d, lines, slice, fired, Plan(), less, sched.currentCycle, State(),
                      irq.State());
    }

    /** The loop, for any account that every round keeps. */
    method Run(cycles: nat, ghost l: Ledger) returns (ghost m: Ledger)
      requires Valid() && BalanceOf(l)(cycles, sched.currentCycle, State(), irq.State()) && !l.begun
      requires l.account(Plan(), l.Bound(sched.currentCycle), l.fires, l.cdRaises) && KeptBy(cd.disc)(l.account)
      modifies this, sched`currentCycle, sched.events, gpu, timer0, timer1, timer2, cd, cd.ring, cd.ring.slots, irq
      ensures Valid() && (m.begun ==> AllAhead(sched.events[..], sched.currentCycle))
      ensures BalanceOf(m)(0, sched.currentCycle, State(), irq.State()) && m.Continues(l)
      ensures m.account(Plan(), m.Bound(sched.currentCycle), m.fires, m.cdRaises)
    {
      var remaining := cycles;
      m := l;
      ghost var due := DueNow();
      while remaining > 0
        invariant 0 <= remaining && Valid() && (m.begun ==> AllAhead(sched.events[..], sched.currentCycle))
        invariant BalanceOf(m)(remaining, sched.currentCycle, State(), irq.State()) && m.Continues(l)
        invariant m.account(Plan(), m.Bound(sched.currentCycle), m.fires, m.cdRaises)
        invariant due == DueNow()
        decreases remaining, due
      {
        remaining, m := Turn(remaining, m);
        due := 0;
      }
    }

    /** Hand out `cycles` in slices. It terminates for every number of cycles; the slices add up to it and none
        runs past a blanking edge. Every event due by the end has fired at exactly its time, exactly as often as it
        should, and no other: the one-shots once, the controller's event at the times its own reactions lead to.

        Every interrupt is accounted for. Vertical blanking raises its own exactly as often as line 240 begins; each
        counter as often as its ticks do, and once more if its event came; the controller as often as its reactions
        do; the serial port if and only if its interrupt is pending at the end; nothing else raises any. */
    method Advance(cycles: nat)
      returns (ghost slices: seq<nat>, ghost fires: seq<Firing>, ghost raised: seq<Source>, ghost cdRaises: nat)
      requires Valid()
      modifies this, sched`currentCycle, sched.events, gpu, timer0, timer1, timer2, cd, cd.ring, cd.ring.slots, irq
      ensures Valid() && (cycles > 0 ==> AllAhead(sched.events[..], sched.currentCycle))
      ensures Sum(slices) == cycles && sched.currentCycle == old(sched.currentCycle) + cycles
      ensures AccountSince(cd.disc, old(Plan()))(Plan(), BoundAfter(cycles, sched.currentCycle), fires, cdRaises)
      ensures State() == AfterSlices(old(State()), slices) && WithinBoundaries(old(State()), slices)
      ensures irq.State() == old(irq.State()).After(raised)
      ensures Raised(raised, old(State()), cycles, slices, fires, cdRaises)
    {
      ghost var a, since, was, up := Plan(), sched.currentCycle, State(), irq.State();
      ghost var l := OpenBooks(cd.disc, a, since, was, up, cycles);
      ghost var m := Run(cycles, l);
      CloseBooks(l, m, cd.disc, a, since, was, up, cycles, Plan(), sched.currentCycle, State(), irq.State());
      slices, fires, raised, cdRaises := m.slices, m.fires, m.raised, m.cdRaises;
    }
  }

  lemma AheadNoneDue(events: seq<Event>, now: nat)
    requires AllAhead(events, now)
    ensures DueCount(events, now) == 0
  {
    NoneDue(events, now);
  }
}
