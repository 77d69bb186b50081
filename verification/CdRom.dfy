/** The CD-ROM controller at register level: a four-slot event ring and the handlers that update it,
    proved to follow `CdProtocol`.
 */
module CdRom {
  import opened Interrupts
  import opened Scheduling
  import opened CdProtocol
  import CdRuns
  import opened Words

  /** The slot of the i-th queued event. */
  function Slot(head: nat, i: nat): (k: nat)
    ensures k < QUEUE_SIZE
  {
    (head + i) % QUEUE_SIZE
  }

  lemma SlotFree(head: nat, count: nat, i: nat)
    requires head < QUEUE_SIZE && i < count < QUEUE_SIZE
    ensures Slot(head, i) != Slot(head, count)
  {
  }

  /** Ring buffer of pending events. Its indices always agree: tail = (head + count) mod 4. */
  class EventRing {
    const slots: array<CdEvent>
    var head: nat
    var tail: nat
    var count: nat
    ghost var contents: seq<CdEvent> // oldest first

    ghost predicate Valid()
      reads this, slots
    {
      slots.Length == QUEUE_SIZE && head < QUEUE_SIZE && count <= QUEUE_SIZE && tail == Slot(head, count)
      && |contents| == count && forall i :: 0 <= i < count ==> contents[i] == slots[Slot(head, i)]
    }

    constructor ()
      ensures Valid() && contents == [] && fresh(slots)
    {
      slots := new CdEvent[QUEUE_SIZE](i => CdEvent(0, Ack, 0));
      head, tail, count, contents := 0, 0, 0, [];
    }

    method Push(e: CdEvent)
      requires Valid()
      modifies this, slots
      ensures Valid()
      ensures contents == if |old(contents)| >= QUEUE_SIZE then old(contents) else old(contents) + [e]
    {
      if count >= QUEUE_SIZE { return; }
      forall i | 0 <= i < count
        ensures Slot(head, i) != tail
      {
        SlotFree(head, count, i);
      }
      slots[tail] := e;
      tail := (tail + 1) % QUEUE_SIZE;
      count := count + 1;
      contents := contents + [e];
    }

    method Pop() returns (e: CdEvent)
      requires Valid() && contents != []
      modifies this
      ensures Valid() && e == old(contents)[0] && contents == old(contents)[1..]
    {
      e := slots[head];
      assert Slot(head, 0) == head;
      forall i | 0 <= i < count - 1
        ensures Slot(Slot(head, 1), i) == Slot(head, i + 1)
      {
      }
      head := (head + 1) % QUEUE_SIZE;
      count := count - 1;
      contents := contents[1..];
    }

    method Clear()
      requires slots.Length == QUEUE_SIZE
      modifies this
      ensures Valid() && contents == []
    {
      head, tail, count, contents := 0, 0, 0, [];
    }
  }

  /** The scheduler's events after a request to wake the controller. */
  function Woken(events: seq<Event>, now: nat, wake: Option<nat>): (r: seq<Event>)
    requires |events| == EVENT_COUNT
    ensures |r| == EVENT_COUNT
  {
    match wake
    case None => events
    case Some(delay) => events[EVENT_CDROM := Event(true, now + delay)]
  }

  class Cdrom {
    const ring: EventRing
    const disc: Disc
    var io: Fifos
    var irqFlag: Byte
    var irqEn: Byte
    var pendingValid: bool
    var pendingCmd: Byte
    var pendingParam: seq<Byte>
    var mech: Mechanics

    ghost predicate Valid()
      reads this, ring, ring.slots
    {
      ring.Valid() && disc.Valid()
    }

    constructor (disc: Disc)
      requires disc.Valid()
      ensures Valid() && fresh(ring) && fresh(ring.slots) && this.disc == disc && State() == InitialDrive()
    {
      this.disc := disc;
      ring := new EventRing();
      io, mech := InitialDrive().io, InitialDrive().mech;
      irqFlag, irqEn, pendingValid, pendingCmd, pendingParam := 0, 0x1F, false, 0, [];
    }

    ghost function State(): Drive
      reads this, ring
    {
      Drive(io, irqFlag, irqEn, ring.contents,
            if pendingValid then Some(Deferred(pendingCmd, pendingParam)) else None, mech)
    }

    /** Enqueue one event and arm the scheduler if it is the first. */
    method QueueEvent(sched: Scheduler, e: CdEvent)
      requires Valid() && sched.Valid()
      modifies ring, ring.slots, sched.events
      ensures Valid() && State() == Queue(old(State()), e).drive
      ensures sched.events[..] == Woken(old(sched.events[..]), sched.currentCycle, Queue(old(State()), e).wake)
    {
      var wasEmpty := ring.count == 0;
      ring.Push(e);
      if wasEmpty { sched.Schedule(EVENT_CDROM, e.delay); }
    }

    method SetResponse(bytes: seq<Byte>)
      requires Valid()
      modifies this`io
      ensures Valid() && State() == Respond(old(State()), bytes)
    {
      io := io.(resp := bytes, respPos := 0);
    }

    method PopParam() returns (v: Byte)
      requires Valid()
      modifies this`io
      ensures Valid() && v == Param(old(State()), 0) && State() == DropParams(old(State()), 1)
    {
      if |io.param| == 0 { return 0; }
      v := io.param[0];
      io := io.(param := io.param[1..]);
    }

    method RespondAndQueue(sched: Scheduler, bytes: seq<Byte>, e: CdEvent)
      requires Valid() && sched.Valid()
      modifies this`io, ring, ring.slots, sched.events
      ensures Valid() && State() == Queue(Respond(old(State()), bytes), e).drive
      ensures sched.events[..]
              == Woken(old(sched.events[..]), sched.currentCycle, Queue(Respond(old(State()), bytes), e).wake)
    {
      SetResponse(bytes);
      QueueEvent(sched, e);
    }

    // ---- Commands ----

    method CmdStart(sched: Scheduler, cdda: bool)
      requires Valid() && sched.Valid()
      modifies this, ring, ring.slots, sched.events
      ensures Followed(old(State()), StartReading(old(State()), disc, cdda), old(sched.events[..]), sched)
    {
      if mech.seekPending {
        var target := MsfToLba(mech.seekTarget);
        mech := mech.(readSeekDelay := SeekDelay(mech, target));
        mech := mech.(curLba := target, seekPending := false);
      } else {
        mech := mech.(readSeekDelay := 0);
      }
      mech := mech.(motor := Reading, playingCdda := cdda);
      RespondAndQueue(sched, [Stat(mech, disc)], CdEvent(3, ReadData, ACK_DELAY));
    }

    /** The object's new state and the scheduler's are those of the reaction. */
    ghost predicate Followed(was: Drive, r: Reaction, events: seq<Event>, sched: Scheduler)
      requires sched.Valid() && |events| == EVENT_COUNT
      reads this, ring, ring.slots, sched, sched.events
    {
      Valid() && State() == r.drive && sched.events[..] == Woken(events, sched.currentCycle, r.wake)
    }

    method CmdSeek(sched: Scheduler)
      requires Valid() && sched.Valid()
      modifies this, ring, ring.slots, sched.events
      ensures Followed(old(State()), Seek(old(State()), disc), old(sched.events[..]), sched)
    {
      var target := if mech.seekPending then MsfToLba(mech.seekTarget) else mech.curLba;
      var delay := SeekDelay(mech, target);
      mech := mech.(seekLba := target, seekDelay := delay, seekPending := false, motor := Seeking);
      RespondAndQueue(sched, [Stat(mech, disc)], CdEvent(3, SeekAck, ACK_DELAY));
    }

    method CmdInit(sched: Scheduler)
      requires Valid() && sched.Valid()
      modifies this, ring, ring.slots, sched.events
      ensures Followed(old(State()), Init(old(State()), disc), old(sched.events[..]), sched)
    {
      ring.Clear();
      mech := mech.(doubleSpeed := false, playingCdda := false, mode := 0, motor := Idle);
      RespondAndQueue(sched, [Stat(mech, disc)], CdEvent(3, InitAck, CMD_DELAY));
    }

    method CmdPause(sched: Scheduler)
      requires Valid() && sched.Valid()
      modifies this, ring, ring.slots, sched.events
      ensures Followed(old(State()), Pause(old(State()), disc), old(sched.events[..]), sched)
    {
      mech := mech.(motor := Idle, playingCdda := false);
      ring.Clear();
      RespondAndQueue(sched, [Stat(mech, disc)], CdEvent(3, PauseAck, ACK_DELAY));
    }

    method CmdStatus(sched: Scheduler, phase: Phase)
      requires Valid() && sched.Valid()
      modifies this, ring, ring.slots, sched.events
      ensures Followed(old(State()), Queue(RespondStat(old(State()), disc), CdEvent(3, phase, ACK_DELAY)),
                       old(sched.events[..]), sched)
    {
      RespondAndQueue(sched, [Stat(mech, disc)], CdEvent(3, phase, ACK_DELAY));
    }

    method CmdSetLoc(sched: Scheduler)
      requires Valid() && sched.Valid()
      modifies this, ring, ring.slots, sched.events
      ensures Followed(old(State()), SetLoc(old(State()), disc), old(sched.events[..]), sched)
    {
      var m := PopParam();
      var s := PopParam();
      var f := PopParam();
      mech := mech.(seekTarget := Msf(m, s, f), seekPending := true);
      CmdStatus(sched, Ack);
    }

    method CmdSetMode(sched: Scheduler)
      requires Valid() && sched.Valid()
      modifies this, ring, ring.slots, sched.events
      ensures Followed(old(State()), SetMode(old(State()), disc), old(sched.events[..]), sched)
    {
      var m := PopParam();
      mech := mech.(mode := m, doubleSpeed := Bit(m, 0x80));
      CmdStatus(sched, Ack);
    }

    method CmdTest(sched: Scheduler)
      requires Valid() && sched.Valid()
      modifies this, ring, ring.slots, sched.events
      ensures Followed(old(State()), Test(old(State()), disc), old(sched.events[..]), sched)
    {
      var sub := PopParam();
      var licensed: Byte := if disc.Disc? then 1 else 0;
      var ok := CdEvent(3, Ack, ACK_DELAY);
      if sub == 0x20 {
        RespondAndQueue(sched, [0x97, 0x01, 0x10, 0xC2], ok);
      } else if sub == 0x21 {
        RespondAndQueue(sched, [0x00], ok);
      } else if sub == 0x22 {
        RespondAndQueue(sched, [0x66, 0x6F, 0x72, 0x20, 0x55, 0x2F, 0x43], ok);
      } else if sub == 0x04 {
        RespondAndQueue(sched, [Stat(mech, disc)], ok);
      } else if sub == 0x05 {
        RespondAndQueue(sched, [licensed, licensed], ok);
      } else {
        RespondAndQueue(sched, [0x11, 0x10], CdEvent(5, Ack, ACK_DELAY));
      }
    }

    /** The dispatch. */
    method ExecuteCommand(sched: Scheduler, cmd: Byte, report: seq<Byte>)
      requires Valid() && sched.Valid()
      modifies this, ring, ring.slots, sched.events
      ensures Followed(old(State()), Execute(old(State()), disc, cmd, report), old(sched.events[..]), sched)
    {
      var ok := CdEvent(3, Ack, ACK_DELAY);
      match cmd
      case 0x01 => CmdStatus(sched, Ack);
      case 0x02 => CmdSetLoc(sched);
      case 0x03 => CmdStart(sched, true);
      case 0x06 => CmdStart(sched, false);
      case 0x1B => CmdStart(sched, false);
      case 0x08 =>
        mech := mech.(motor := Idle, playingCdda := false);
        CmdStatus(sched, Ack);
      case 0x09 => CmdPause(sched);
      case 0x0A => CmdInit(sched);
      case 0x0B => CmdStatus(sched, Ack);
      case 0x0C => CmdStatus(sched, Ack);
      case 0x0D =>
        var file := PopParam();
        var channel := PopParam();
        CmdStatus(sched, Ack);
      case 0x0E => CmdSetMode(sched);
      case 0x10 => RespondAndQueue(sched, report, ok);
      case 0x11 => RespondAndQueue(sched, report, ok);
      case 0x13 => RespondAndQueue(sched, report, ok);
      case 0x14 =>
        var track := PopParam();
        RespondAndQueue(sched, report, ok);
      case 0x15 => CmdSeek(sched);
      case 0x16 => CmdSeek(sched);
      case 0x19 => CmdTest(sched);
      case 0x1A => CmdStatus(sched, GetIdAck);
      case 0x1E =>
        mech := mech.(motor := Seeking);
        CmdStatus(sched, ReadTocAck);
      case _ => RespondAndQueue(sched, [0x11, 0x40], CdEvent(5, Ack, ACK_DELAY));
    }

    /** Writing the command register. */
    method WriteCommand(sched: Scheduler, cmd: Byte, report: seq<Byte>)
      requires Valid() && sched.Valid()
      modifies this, ring, ring.slots, sched.events
      ensures Followed(old(State()), Command(old(State()), disc, cmd, report), old(sched.events[..]), sched)
    {
      if irqFlag != 0 {
        pendingValid, pendingCmd := true, cmd;
        pendingParam := io.param;
        io := io.(param := []);
        return;
      }
      ExecuteCommand(sched, cmd, report);
    }

    /** The acknowledge itself. */
    method ClearFlags(irq: Irq, val: Byte)
      requires Valid()
      modifies this`irqFlag, this`io, irq
      ensures Valid() && State() == Cleared(old(State()), val)
      ensures irq.State() == old(irq.State()).LoweredIf(irqFlag == 0, Source.Cdrom)
    {
      irqFlag := AndNot(irqFlag, val % 32, 8);
      if val % 32 != 0 { io := io.(resp := [], respPos := 0); }
      if irqFlag == 0 { irq.Deassert(Source.Cdrom); }
      if Bit(val, 0x40) { io := io.(param := []); }
    }

    /** Writing the parameter FIFO; a full FIFO ignores the byte. */
    method WriteParam(v: Byte)
      requires Valid()
      modifies this`io
      ensures Valid() && State() == CdRuns.React(old(State()), disc, CdRuns.WriteParam(v)).drive
    {
      if |io.param| < FIFO_SIZE { io := io.(param := io.param + [v]); }
    }

    method WriteIrqEnable(v: Byte)
      requires Valid()
      modifies this`irqEn
      ensures Valid() && State() == CdRuns.React(old(State()), disc, CdRuns.WriteIrqEnable(v)).drive
    {
      irqEn := v % 32;
    }

    /** Reading the response FIFO: its bytes in order, then 0. */
    method ReadResponse() returns (v: Byte)
      requires Valid()
      modifies this`io
      ensures Valid() && State() == CdRuns.React(old(State()), disc, CdRuns.ReadResponse).drive
      ensures v == if old(io.respPos < |io.resp|) then old(io.resp)[old(io.respPos)] else 0
    {
      if io.respPos >= |io.resp| { return 0; }
      v := io.resp[io.respPos];
      io := io.(respPos := io.respPos + 1);
    }

    /** Reading the data FIFO: its bytes in order, then 0. */
    method ReadDataByte() returns (v: Byte)
      requires Valid()
      modifies this`io
      ensures Valid() && State() == CdRuns.React(old(State()), disc, CdRuns.ReadDataByte).drive
      ensures v == if old(io.dataPos < |io.data|) then old(io.data)[old(io.dataPos)] else 0
    {
      if io.dataPos >= |io.data| { return 0; }
      v := io.data[io.dataPos];
      io := io.(dataPos := io.dataPos + 1);
    }

    /** Run the command that was waiting, with the parameters saved for it. */
    method ReleaseDeferred(sched: Scheduler, report: seq<Byte>)
      requires Valid() && sched.Valid()
      modifies this, ring, ring.slots, sched.events
      ensures var c := old(State());
              Followed(c, if c.pending.Some? && c.irqFlag == 0
                          then Execute(Released(c), disc, c.pending.value.cmd, report)
                          else Reaction(c, None, Keep),
                       old(sched.events[..]), sched)
    {
      if !pendingValid || irqFlag != 0 { return; }
      pendingValid := false;
      io := io.(param := pendingParam);
      pendingParam := [];
      ExecuteCommand(sched, pendingCmd, report);
    }

    /** Writing the interrupt flag register: acknowledge, then release a deferred command. */
    method WriteIrqFlag(sched: Scheduler, irq: Irq, val: Byte, report: seq<Byte>)
      requires Valid() && sched.Valid()
      modifies this, ring, ring.slots, sched.events, irq
      ensures Followed(old(State()), AckWrite(old(State()), disc, val, report), old(sched.events[..]), sched)
      ensures irq.State() == old(irq.State()).LoweredIf(Cleared(old(State()), val).irqFlag == 0, Source.Cdrom)
    {
      ClearFlags(irq, val);
      ReleaseDeferred(sched, report);
    }

    // ---- Events ----

    method CommitIrq(irq: Irq, intType: Byte)
      requires Valid()
      modifies this`irqFlag, irq
      ensures Valid() && State() == Commit(old(State()), intType)
      ensures irq.State() == old(irq.State()).AfterIf(Overlap(intType, irqEn, 8), Source.Cdrom)
    {
      irqFlag := intType;
      if Overlap(intType, irqEn, 8) { irq.Assert(Source.Cdrom); }
    }

    method Deliver(irq: Irq)
      requires Valid()
      modifies this, ring, ring.slots, irq
      ensures Valid() && State() == DeliverSector(old(State()), disc)
      ensures irq.State() == old(irq.State()).AfterIf(Deliverable(old(State()), disc) && Overlap(1, irqEn, 8),
                                                      Source.Cdrom)
    {
      if irqFlag != 0 || pendingValid {
        ring.Push(CdEvent(1, Sector, ACK_DELAY));
        return;
      }
      if mech.motor != Reading { return; }
      if disc.NoDisc? {
        mech := mech.(motor := Idle);
        SetResponse([0x09, 0x80]);
        ring.Push(CdEvent(5, Ack, ACK_DELAY));
        return;
      }
      var data := SectorData(mech, disc);
      mech := mech.(curLba := (mech.curLba + 1) % U32);
      io := io.(data := data, dataPos := 0);
      SetResponse([Stat(mech, disc)]);
      CommitIrq(irq, 1);
      ring.Push(CdEvent(1, Sector, Period(mech)));
    }

    method FinishCommand(irq: Irq, e: CdEvent)
      requires Valid()
      modifies this, irq
      ensures Valid() && State() == Finish(old(State()), disc, e)
      ensures irq.State() == old(irq.State()).AfterIf(Overlap(e.intType, irqEn, 8), Source.Cdrom)
    {
      mech := mech.(motor := Idle);
      SetResponse([Stat(mech, disc)]);
      CommitIrq(irq, e.intType);
    }

    method CommitAndPush(irq: Irq, intType: Byte, next: CdEvent)
      requires Valid()
      modifies this`irqFlag, ring, ring.slots, irq
      ensures Valid() && State() == Push(Commit(old(State()), intType), next)
      ensures irq.State() == old(irq.State()).AfterIf(Overlap(intType, irqEn, 8), Source.Cdrom)
    {
      CommitIrq(irq, intType);
      ring.Push(next);
    }

    /** The phases of one event. */
    method PerformEvent(irq: Irq, e: CdEvent)
      requires Valid()
      modifies this, ring, ring.slots, irq
      ensures Valid() && State() == Perform(old(State()), disc, e) && irqEn == old(irqEn)
      ensures irq.State() == old(irq.State()).AfterIf(Signals(old(State()), disc, e)
                                                      && Overlap(SignalType(e), irqEn, 8), Source.Cdrom)
    {
      match e.phase
      case Ack => CommitIrq(irq, e.intType);
      case InitAck => CommitAndPush(irq, e.intType, CdEvent(2, InitDone, CMD_DELAY));
      case InitDone => FinishCommand(irq, e);
      case SeekAck => CommitAndPush(irq, e.intType, CdEvent(2, SeekDone, mech.seekDelay));
      case SeekDone =>
        mech := mech.(curLba := mech.seekLba);
        FinishCommand(irq, e);
      case GetIdAck => CommitAndPush(irq, e.intType, CdEvent(if disc.Disc? then 2 else 5, GetIdDone, CMD_DELAY));
      case GetIdDone =>
        SetResponse(Identity(mech, disc));
        CommitIrq(irq, e.intType);
      case ReadTocAck => CommitAndPush(irq, e.intType, CdEvent(2, ReadTocDone, TOC_DELAY));
      case ReadTocDone => FinishCommand(irq, e);
      case PauseAck => CommitAndPush(irq, e.intType, CdEvent(2, PauseDone, CMD_DELAY));
      case PauseDone => FinishCommand(irq, e);
      case ReadData =>
        CommitAndPush(irq, e.intType, CdEvent(1, Sector, FirstSectorDelay(mech)));
        mech := mech.(readSeekDelay := 0);
      case Sector => Deliver(irq);
    }

    /** The scheduler's callback: take one event, perform it, re-arm for the next. */
    method OnSchedulerEvent(irq: Irq, sched: Scheduler)
      requires Valid() && sched.Valid()
      modifies this, ring, ring.slots, sched.events, irq
      ensures Followed(old(State()), OnEvent(old(State()), disc), old(sched.events[..]), sched)
      ensures irq.State() == old(irq.State()).AfterIf(OnEvent(old(State()), disc).line == Raise, Source.Cdrom)
    {
      if ring.count == 0 { return; }
      var e := ring.Pop();
      PerformEvent(irq, e);
      assert Slot(ring.head, 0) == ring.head;
      if ring.count > 0 { sched.Schedule(EVENT_CDROM, ring.slots[ring.head].delay); }
    }
  }
}
