/** Runs of the CD-ROM controller: any interleaving of register accesses and scheduler events. */
module CdRuns {
  import opened CdProtocol
  import opened Words

  datatype Input =
    | WriteCommand(cmd: Byte, report: seq<Byte>)
    | WriteParam(v: Byte)
    | WriteIrqEnable(v: Byte)
    | WriteIrqFlag(flag: Byte, ackReport: seq<Byte>)
    | ReadResponse
    | ReadDataByte
    | Event

  /** Something that happened to the head position or the data FIFO. */
  datatype Entry = Moved(lba: nat) | Delivered(lba: nat)

  /** The controller, whether its scheduler event is armed, and the history of the read head. */
  datatype System = System(drive: Drive, armed: bool, log: seq<Entry>)

  const START := System(InitialDrive(), false, [])

  /** The drive as the command will find it, and the command, if this input executes one. */
  function Executed(d: Drive, i: Input): Option<(Drive, Byte)> {
    match i
    case WriteCommand(cmd, _) => if d.irqFlag == 0 then Some((d, cmd)) else None
    case WriteIrqFlag(v, _) =>
      var c := Cleared(d, v);
      if c.pending.Some? && c.irqFlag == 0 then Some((Released(c), c.pending.value.cmd)) else None
    case _ => None
  }

  predicate TakesPosition(cmd: Byte) { cmd == 0x03 || cmd == 0x06 || cmd == 0x1B }

  /** The entry an input adds to the history. */
  function Entries(d: Drive, disc: Disc, i: Input): seq<Entry> {
    if i.Event? && d.queue != [] then
      var e := d.queue[0];
      if e.phase == SeekDone then [Moved(d.mech.seekLba)]
      else if e.phase == Sector && Deliverable(d.(queue := d.queue[1..]), disc) then [Delivered(d.mech.curLba)]
      else []
    else match Executed(d, i)
      case Some(x) => if TakesPosition(x.1) && x.0.mech.seekPending then [Moved(MsfToLba(x.0.mech.seekTarget))] else []
      case None => []
  }

  function React(d: Drive, disc: Disc, i: Input): Reaction
    requires disc.Valid()
  {
    match i
    case WriteCommand(cmd, report) => Command(d, disc, cmd, report)
    case WriteParam(v) =>
      Reaction(if |d.io.param| < FIFO_SIZE then d.(io := d.io.(param := d.io.param + [v])) else d, None, Keep)
    case WriteIrqEnable(v) => Reaction(d.(irqEn := v % 32), None, Keep)
    case WriteIrqFlag(v, report) => AckWrite(d, disc, v, report)
    case ReadResponse =>
      Reaction(if d.io.respPos < |d.io.resp| then d.(io := d.io.(respPos := d.io.respPos + 1)) else d, None, Keep)
    case ReadDataByte =>
      Reaction(if d.io.dataPos < |d.io.data| then d.(io := d.io.(dataPos := d.io.dataPos + 1)) else d, None, Keep)
    case Event => OnEvent(d, disc)
  }

  /** The scheduler disarms its event before it calls the handler, and calls it only when armed. */
  function Step(s: System, disc: Disc, i: Input): System
    requires disc.Valid()
  {
    if i.Event? && !s.armed then s else
      var r := React(s.drive, disc, i);
      System(r.drive, (s.armed && !i.Event?) || r.wake.Some?, s.log + Entries(s.drive, disc, i))
  }

  function Run(s: System, disc: Disc, inputs: seq<Input>): System
    requires disc.Valid()
  {
    if inputs == [] then s else
      var n := |inputs| - 1;
      Step(Run(s, disc, inputs[..n]), disc, inputs[n])
  }

  lemma OneInputMore(s: System, disc: Disc, inputs: seq<Input>, i: Input)
    requires disc.Valid()
    ensures Run(s, disc, inputs + [i]) == Step(Run(s, disc, inputs), disc, i)
  {
    assert (inputs + [i])[..|inputs|] == inputs;
  }

  // ---- The invariant ----

  predicate GoodEvent(e: CdEvent, seekDelay: nat) {
    (e.intType == 1 || e.intType == 2 || e.intType == 3 || e.intType == 5) && e.delay > 0
    && (e.phase == SeekAck ==> seekDelay > 0) && (e.intType == 1 <==> e.phase == Sector)
  }

  predicate GoodQueue(q: seq<CdEvent>, seekDelay: nat) {
    |q| <= QUEUE_SIZE && forall k :: 0 <= k < |q| ==> GoodEvent(q[k], seekDelay)
  }

  predicate GoodDrive(d: Drive) {
    GoodQueue(d.queue, d.mech.seekDelay) && |d.io.param| <= FIFO_SIZE
    && (d.pending.Some? ==> d.irqFlag != 0 && |d.pending.value.param| <= FIFO_SIZE)
  }

  /** The read head stands where the history says. */
  predicate HeadFollowsLog(curLba: nat, log: seq<Entry>) {
    log != [] ==>
      match log[|log| - 1]
      case Moved(lba) => curLba == lba
      case Delivered(lba) => curLba == (lba + 1) % U32
  }

  /** Sectors come in order: each follows the last one, or the position the head was moved to. */
  predicate InOrder(log: seq<Entry>) {
    forall k :: 0 < k < |log| && log[k].Delivered? ==>
      log[k].lba == if log[k - 1].Moved? then log[k - 1].lba else (log[k - 1].lba + 1) % U32
  }

  predicate Good(s: System) {
    && GoodDrive(s.drive) && (s.armed <==> s.drive.queue != [])
    && HeadFollowsLog(s.drive.mech.curLba, s.log) && InOrder(s.log)
  }

  /** What every command execution guarantees. */
  predicate ExecutedWell(d: Drive, cmd: Byte, r: Reaction) {
    GoodDrive(r.drive) && r.drive.queue != [] && (d.queue == [] ==> r.wake.Some?)
    && r.drive.irqFlag == d.irqFlag && r.drive.pending.None?
    && r.drive.io.data == d.io.data && r.drive.io.dataPos == d.io.dataPos
    && r.drive.mech.curLba
       == (if TakesPosition(cmd) && d.mech.seekPending then MsfToLba(d.mech.seekTarget) else d.mech.curLba)
    && Appended(QueueBefore(d, cmd), r.drive.queue)
  }

  predicate ClearsQueue(cmd: Byte) { cmd == 0x09 || cmd == 0x0A }

  function QueueBefore(d: Drive, cmd: Byte): seq<CdEvent> { if ClearsQueue(cmd) then [] else d.queue }

  /** One event more, unless the queue was full. */
  predicate Appended(q: seq<CdEvent>, r: seq<CdEvent>) {
    if |q| < QUEUE_SIZE then |r| == |q| + 1 && r[..|q|] == q else r == q
  }

  /** The drive p just before the acknowledge event e of a command is queued. */
  lemma Prepared(d: Drive, p: Drive, e: CdEvent, cmd: Byte)
    requires GoodDrive(d) && GoodEvent(e, p.mech.seekDelay)
    requires |p.io.param| <= FIFO_SIZE && p.io.data == d.io.data && p.io.dataPos == d.io.dataPos
    requires p.irqFlag == d.irqFlag && p.pending.None? && p.queue == QueueBefore(d, cmd)
    requires p.mech.seekDelay == d.mech.seekDelay || p.mech.seekDelay > 0
    requires p.mech.curLba
             == (if TakesPosition(cmd) && d.mech.seekPending then MsfToLba(d.mech.seekTarget) else d.mech.curLba)
    ensures ExecutedWell(d, cmd, Queue(p, e))
  {
    forall k | 0 <= k < |p.queue|
      ensures GoodEvent(p.queue[k], p.mech.seekDelay)
    {
      assert GoodEvent(d.queue[k], d.mech.seekDelay);
    }
  }

  /** A command's preparation that leaves everything but parameters, mode and motor alone. */
  predicate Alike(d: Drive, p: Drive, cmd: Byte) {
    && GoodDrive(d) && d.pending.None? && !TakesPosition(cmd) && !ClearsQueue(cmd)
    && p.queue == d.queue && p.irqFlag == d.irqFlag && p.pending == d.pending
    && |p.io.param| <= FIFO_SIZE && p.io.data == d.io.data && p.io.dataPos == d.io.dataPos
    && p.mech.curLba == d.mech.curLba && p.mech.seekDelay == d.mech.seekDelay
  }

  lemma ReplyExecuted(d: Drive, p: Drive, cmd: Byte, bytes: seq<Byte>, phase: Phase)
    requires Alike(d, p, cmd) && phase != SeekAck && phase != Sector
    ensures ExecutedWell(d, cmd, Queue(Respond(p, bytes), CdEvent(3, phase, ACK_DELAY)))
  {
    Prepared(d, Respond(p, bytes), CdEvent(3, phase, ACK_DELAY), cmd);
  }

  lemma RefusalExecuted(d: Drive, p: Drive, cmd: Byte, code: Byte)
    requires Alike(d, p, cmd)
    ensures ExecutedWell(d, cmd, Refuse(p, code))
  {
    Prepared(d, Respond(p, [0x11, code]), CdEvent(5, Ack, ACK_DELAY), cmd);
  }

  lemma StatusExecuted(d: Drive, p: Drive, disc: Disc, cmd: Byte, phase: Phase)
    requires Alike(d, p, cmd) && phase != SeekAck && phase != Sector
    ensures ExecutedWell(d, cmd, Queue(RespondStat(p, disc), CdEvent(3, phase, ACK_DELAY)))
  {
    ReplyExecuted(d, p, cmd, [Stat(p.mech, disc)], phase);
  }

  lemma ExecuteGood(d: Drive, disc: Disc, cmd: Byte, report: seq<Byte>)
    requires GoodDrive(d) && d.pending.None?
    ensures ExecutedWell(d, cmd, Execute(d, disc, cmd, report))
  {
    if TakesPosition(cmd) {
      var p := d.(mech := TakePosition(d.mech).(motor := Reading, playingCdda := cmd == 0x03));
      Prepared(d, RespondStat(p, disc), CdEvent(3, Phase.ReadData, ACK_DELAY), cmd);
    } else if cmd == 0x15 || cmd == 0x16 {
      Prepared(d, RespondStat(d.(mech := SeekStarted(d.mech)), disc), CdEvent(3, SeekAck, ACK_DELAY), cmd);
    } else if cmd == 0x0A {
      var p := d.(queue := [], mech := d.mech.(doubleSpeed := false, playingCdda := false, mode := 0, motor := Idle));
      Prepared(d, RespondStat(p, disc), CdEvent(3, InitAck, CMD_DELAY), cmd);
    } else if cmd == 0x09 {
      var p := d.(queue := [], mech := d.mech.(motor := Idle, playingCdda := false));
      Prepared(d, RespondStat(p, disc), CdEvent(3, PauseAck, ACK_DELAY), cmd);
    } else {
      OtherExecuted(d, disc, cmd, report);
    }
  }

  lemma OtherExecuted(d: Drive, disc: Disc, cmd: Byte, report: seq<Byte>)
    requires GoodDrive(d) && d.pending.None? && !TakesPosition(cmd)
    requires cmd != 0x15 && cmd != 0x16 && cmd != 0x0A && cmd != 0x09
    ensures ExecutedWell(d, cmd, Execute(d, disc, cmd, report))
  {
    match cmd
    case 0x01 => StatusExecuted(d, d, disc, cmd, Ack);
    case 0x02 =>
      var target := Msf(Param(d, 0), Param(d, 1), Param(d, 2));
      StatusExecuted(d, DropParams(d, 3).(mech := d.mech.(seekTarget := target, seekPending := true)), disc, cmd, Ack);
    case 0x08 => StatusExecuted(d, d.(mech := d.mech.(motor := Idle, playingCdda := false)), disc, cmd, Ack);
    case 0x0B => StatusExecuted(d, d, disc, cmd, Ack);
    case 0x0C => StatusExecuted(d, d, disc, cmd, Ack);
    case 0x0D => StatusExecuted(d, DropParams(d, 2), disc, cmd, Ack);
    case 0x0E =>
      var m := Param(d, 0);
      StatusExecuted(d, DropParams(d, 1).(mech := d.mech.(mode := m, doubleSpeed := Bit(m, 0x80))), disc, cmd, Ack);
    case 0x10 => ReplyExecuted(d, d, cmd, report, Ack);
    case 0x11 => ReplyExecuted(d, d, cmd, report, Ack);
    case 0x13 => ReplyExecuted(d, d, cmd, report, Ack);
    case 0x14 => ReplyExecuted(d, DropParams(d, 1), cmd, report, Ack);
    case 0x19 => TestExecuted(d, disc, cmd);
    case 0x1A => StatusExecuted(d, d, disc, cmd, GetIdAck);
    case 0x1E => StatusExecuted(d, d.(mech := d.mech.(motor := Seeking)), disc, cmd, ReadTocAck);
    case _ => RefusalExecuted(d, d, cmd, 0x40);
  }

  lemma TestExecuted(d: Drive, disc: Disc, cmd: Byte)
    requires GoodDrive(d) && d.pending.None? && !TakesPosition(cmd) && !ClearsQueue(cmd)
    ensures ExecutedWell(d, cmd, Test(d, disc))
  {
    var sub, t := Param(d, 0), DropParams(d, 1);
    if sub == 0x20 {
      ReplyExecuted(d, t, cmd, [0x97, 0x01, 0x10, 0xC2], Ack);
    } else if sub == 0x21 {
      ReplyExecuted(d, t, cmd, [0x00], Ack);
    } else if sub == 0x22 {
      ReplyExecuted(d, t, cmd, [0x66, 0x6F, 0x72, 0x20, 0x55, 0x2F, 0x43], Ack);
    } else if sub == 0x04 {
      StatusExecuted(d, t, disc, cmd, Ack);
    } else if sub == 0x05 {
      var licensed: Byte := if disc.Disc? then 1 else 0;
      ReplyExecuted(d, t, cmd, [licensed, licensed], Ack);
    } else {
      RefusalExecuted(d, t, cmd, 0x10);
    }
  }

  // ---- Events ----

  /** The continuation an event leaves behind: the second response of a command, or the next sector. */
  function Continuation(d: Drive, disc: Disc, e: CdEvent): seq<CdEvent> {
    match e.phase
    case InitAck => [CdEvent(2, InitDone, CMD_DELAY)]
    case SeekAck => [CdEvent(2, SeekDone, d.mech.seekDelay)]
    case GetIdAck => [CdEvent(if disc.Disc? then 2 else 5, GetIdDone, CMD_DELAY)]
    case ReadTocAck => [CdEvent(2, ReadTocDone, TOC_DELAY)]
    case PauseAck => [CdEvent(2, PauseDone, CMD_DELAY)]
    case ReadData => [CdEvent(1, Sector, FirstSectorDelay(d.mech))]
    case Sector =>
      if d.irqFlag != 0 || d.pending.Some? then [CdEvent(1, Sector, ACK_DELAY)]
      else if d.mech.motor != Reading then []
      else if disc.NoDisc? then [CdEvent(5, Ack, ACK_DELAY)]
      else [CdEvent(1, Sector, Period(d.mech))]
    case _ => []
  }

  lemma PerformQueue(p: Drive, disc: Disc, e: CdEvent)
    requires disc.Valid() && |p.queue| < QUEUE_SIZE
    ensures Perform(p, disc, e).queue == p.queue + Continuation(p, disc, e)
  {
  }

  /** One event is taken off and its continuation, if any, put on: none is ever lost to a full queue. */
  lemma NoContinuationLost(d: Drive, disc: Disc)
    requires disc.Valid() && GoodDrive(d) && d.queue != []
    ensures OnEvent(d, disc).drive.queue == d.queue[1..] + Continuation(d.(queue := d.queue[1..]), disc, d.queue[0])
    ensures |Continuation(d.(queue := d.queue[1..]), disc, d.queue[0])| <= 1
  {
    PerformQueue(d.(queue := d.queue[1..]), disc, d.queue[0]);
  }

  /** What no event touches, and how it may change the interrupt flag. */
  predicate EventKeeps(p: Drive, r: Drive, intType: Byte) {
    r.mech.seekDelay == p.mech.seekDelay && r.io.param == p.io.param && r.pending == p.pending
    && r.irqEn == p.irqEn && (r.irqFlag == p.irqFlag || r.irqFlag == intType || r.irqFlag == 1)
  }

  lemma DeliverKeeps(p: Drive, disc: Disc, intType: Byte)
    requires disc.Valid()
    ensures EventKeeps(p, DeliverSector(p, disc), intType)
  {
  }

  lemma FinishKeeps(p: Drive, disc: Disc, e: CdEvent)
    ensures EventKeeps(p, Finish(p, disc, e), e.intType)
    ensures EventKeeps(p, Finish(p.(mech := p.mech.(curLba := p.mech.seekLba)), disc, e), e.intType)
  {
  }

  lemma CommitKeeps(p: Drive, e: CdEvent, next: CdEvent)
    ensures EventKeeps(p, Push(Commit(p, e.intType), next), e.intType)
    ensures EventKeeps(p, Push(Commit(p.(mech := p.mech.(readSeekDelay := 0)), e.intType), next), e.intType)
  {
  }

  lemma PerformKeeps(p: Drive, disc: Disc, e: CdEvent)
    requires disc.Valid()
    ensures EventKeeps(p, Perform(p, disc, e), e.intType)
  {
    match e.phase
    case Sector => DeliverKeeps(p, disc, e.intType);
    case InitDone => FinishKeeps(p, disc, e);
    case SeekDone => FinishKeeps(p, disc, e);
    case ReadTocDone => FinishKeeps(p, disc, e);
    case PauseDone => FinishKeeps(p, disc, e);
    case InitAck => CommitKeeps(p, e, CdEvent(2, InitDone, CMD_DELAY));
    case SeekAck => CommitKeeps(p, e, CdEvent(2, SeekDone, p.mech.seekDelay));
    case GetIdAck => CommitKeeps(p, e, CdEvent(if disc.Disc? then 2 else 5, GetIdDone, CMD_DELAY));
    case ReadTocAck => CommitKeeps(p, e, CdEvent(2, ReadTocDone, TOC_DELAY));
    case PauseAck => CommitKeeps(p, e, CdEvent(2, PauseDone, CMD_DELAY));
    case ReadData => CommitKeeps(p, e, CdEvent(1, Sector, FirstSectorDelay(p.mech)));
    case _ =>
  }

  lemma EventGood(d: Drive, disc: Disc)
    requires disc.Valid() && GoodDrive(d) && d.queue != []
    ensures GoodDrive(OnEvent(d, disc).drive)
    ensures OnEvent(d, disc).wake.Some? <==> OnEvent(d, disc).drive.queue != []
  {
    var e, p := d.queue[0], d.(queue := d.queue[1..]);
    NoContinuationLost(d, disc);
    PerformKeeps(p, disc, e);
    assert GoodEvent(e, d.mech.seekDelay);
    var r := OnEvent(d, disc).drive;
    forall k | 0 <= k < |r.queue|
      ensures GoodEvent(r.queue[k], r.mech.seekDelay)
    {
      if k < |p.queue| { assert r.queue[k] == d.queue[k + 1]; }
    }
  }

  // ---- Every run ----

  lemma ReleasedGood(d: Drive, v: Byte)
    requires GoodDrive(d)
    ensures var c := Cleared(d, v);
            GoodQueue(c.queue, c.mech.seekDelay) && c.queue == d.queue && c.mech == d.mech && c.pending == d.pending
            && |c.io.param| <= FIFO_SIZE && c.io.data == d.io.data
            && (c.pending.Some? ==> GoodDrive(Released(c)))
  {
  }

  /** What one input guarantees of the drive, the wake-up request and the history. */
  predicate ReactedWell(d: Drive, i: Input, r: Reaction, es: seq<Entry>) {
    GoodDrive(r.drive) && |es| <= 1
    && (if i.Event? || d.queue == [] then r.wake.Some? <==> r.drive.queue != [] else r.drive.queue != [])
    && (if es == [] then r.drive.mech.curLba == d.mech.curLba
        else HeadFollowsLog(r.drive.mech.curLba, es) && (es[0].Delivered? ==> es[0].lba == d.mech.curLba))
  }

  lemma AckReacts(d: Drive, disc: Disc, i: Input)
    requires disc.Valid() && GoodDrive(d) && i.WriteIrqFlag?
    ensures ReactedWell(d, i, React(d, disc, i), Entries(d, disc, i))
  {
    var c := Cleared(d, i.flag);
    ReleasedGood(d, i.flag);
    if c.pending.Some? && c.irqFlag == 0 { ExecuteGood(Released(c), disc, c.pending.value.cmd, i.ackReport); }
  }

  lemma EventReacts(d: Drive, disc: Disc)
    requires disc.Valid() && GoodDrive(d) && d.queue != []
    ensures ReactedWell(d, Event, React(d, disc, Event), Entries(d, disc, Event))
  {
    EventGood(d, disc);
    HeadAfterEvent(d.(queue := d.queue[1..]), disc, d.queue[0]);
  }

  /** Register accesses and events keep the drive good and the head where the history says. */
  lemma ReactGood(d: Drive, disc: Disc, i: Input)
    requires disc.Valid() && GoodDrive(d) && (i.Event? ==> d.queue != [])
    ensures ReactedWell(d, i, React(d, disc, i), Entries(d, disc, i))
  {
    match i
    case WriteCommand(cmd, report) =>
      if d.irqFlag == 0 { ExecuteGood(d, disc, cmd, report); }
    case WriteIrqFlag(v, report) => AckReacts(d, disc, i);
    case Event => EventReacts(d, disc);
    case _ =>
  }

  /** After a register access the controller has something queued exactly if its event was armed or has been
      asked for. */
  lemma ArmedAfterAccess(d: Drive, disc: Disc, i: Input)
    requires disc.Valid() && GoodDrive(d) && !i.Event?
    ensures var r := React(d, disc, i);
            GoodDrive(r.drive) && (r.drive.queue != [] <==> d.queue != [] || r.wake.Some?)
  {
    ReactGood(d, disc, i);
  }

  lemma HeadAfterEvent(p: Drive, disc: Disc, e: CdEvent)
    requires disc.Valid()
    ensures Perform(p, disc, e).mech.curLba
            == if e.phase == SeekDone then p.mech.seekLba
               else if e.phase == Sector && Deliverable(p, disc) then (p.mech.curLba + 1) % U32
               else p.mech.curLba
  {
  }

  lemma StepGood(s: System, disc: Disc, i: Input)
    requires disc.Valid() && Good(s)
    ensures Good(Step(s, disc, i))
  {
    if !i.Event? || s.armed {
      ReactGood(s.drive, disc, i);
      var t, es := Step(s, disc, i), Entries(s.drive, disc, i);
      if es != [] {
        assert t.log == s.log + [es[0]];
      } else {
        assert t.log == s.log;
      }
    }
  }

  /** Every reachable state is good: the queue never overflows its four slots, the scheduler event is armed
      exactly while something is queued, a deferred command always has an unacknowledged interrupt before
      it, and sectors have been delivered in order with none skipped or repeated. */
  lemma {:induction false} RunGood(disc: Disc, inputs: seq<Input>)
    requires disc.Valid()
    ensures Good(Run(START, disc, inputs))
  {
    if inputs != [] {
      RunGood(disc, inputs[..|inputs| - 1]);
      StepGood(Run(START, disc, inputs[..|inputs| - 1]), disc, inputs[|inputs| - 1]);
    }
  }

  // ---- Sectors ----

  /** The data FIFO is reloaded only by a sector event with nothing unacknowledged and nothing deferred;
      it then holds exactly the sector under the head, and INT1 is up. INT1 is raised in no other way: no event
      but such a delivery signals it or puts it in the flag. */
  lemma DeliveryNeedsSilence(d: Drive, disc: Disc, i: Input)
    requires disc.Valid() && GoodDrive(d)
    ensures var r, es := React(d, disc, i).drive, Entries(d, disc, i);
            (r.io.data != d.io.data ==> es == [Delivered(d.mech.curLba)])
            && (es == [Delivered(d.mech.curLba)] ==>
                  i.Event? && d.irqFlag == 0 && d.pending.None? && d.mech.motor == Reading && disc.Disc?
                  && r.io.data == SectorData(d.mech, disc) && r.io.dataPos == 0 && r.irqFlag == 1)
            && (React(d, disc, i).line == Raise ==> i.Event? && d.queue != [])
            && (React(d, disc, i).line == Raise && r.irqFlag == 1 ==> es == [Delivered(d.mech.curLba)])
            && (i.Event? && r.irqFlag == 1 && d.irqFlag != 1 ==> es == [Delivered(d.mech.curLba)])
  {
    match i
    case WriteCommand(cmd, report) =>
      if d.irqFlag == 0 { ExecuteGood(d, disc, cmd, report); }
    case WriteIrqFlag(v, report) =>
      ReleasedGood(d, v);
      var c := Cleared(d, v);
      if c.pending.Some? && c.irqFlag == 0 { ExecuteGood(Released(c), disc, c.pending.value.cmd, report); }
    case Event =>
      if d.queue != [] {
        assert GoodEvent(d.queue[0], d.mech.seekDelay);
        DataAfterEvent(d.(queue := d.queue[1..]), disc, d.queue[0]);
        FlagAfterEvent(d.(queue := d.queue[1..]), disc, d.queue[0]);
      }
    case _ =>
  }

  /** Acknowledging half of INT3 leaves the flag reading 1 although no sector has been delivered. */
  lemma PartialAcknowledge()
    ensures var d := InitialDrive().(irqFlag := 3);
            React(d, NoDisc, WriteIrqFlag(2, [])).drive.irqFlag == 1 && Entries(d, NoDisc, WriteIrqFlag(2, [])) == []
  {
    assert AndNot(3, 2, 8) == 1;
  }

  lemma FlagAfterEvent(p: Drive, disc: Disc, e: CdEvent)
    requires disc.Valid()
    ensures Perform(p, disc, e).irqFlag
            == if e.phase != Sector then e.intType else if Deliverable(p, disc) then 1 else p.irqFlag
  {
  }

  lemma DataAfterEvent(p: Drive, disc: Disc, e: CdEvent)
    requires disc.Valid()
    ensures if e.phase == Sector && Deliverable(p, disc) then
              Perform(p, disc, e).io.data == SectorData(p.mech, disc)
              && Perform(p, disc, e).io.dataPos == 0 && Perform(p, disc, e).irqFlag == 1
            else Perform(p, disc, e).io.data == p.io.data
  {
  }

  // ---- Deferred commands ----

  /** Inputs that neither issue a command nor release one. */
  predicate LeavesDeferred(d: Drive, i: Input) { !i.WriteCommand? && Executed(d, i).None? }

  lemma DeferredStays(d: Drive, disc: Disc, i: Input)
    requires disc.Valid() && d.pending.Some? && LeavesDeferred(d, i)
    ensures React(d, disc, i).drive.pending == d.pending
  {
    if i.Event? && d.queue != [] { PerformKeeps(d.(queue := d.queue[1..]), disc, d.queue[0]); }
  }

  predicate AllLeave(s: System, disc: Disc, inputs: seq<Input>)
    requires disc.Valid()
  {
    forall k :: 0 <= k < |inputs| ==> LeavesDeferred(Run(s, disc, inputs[..k]).drive, inputs[k])
  }

  lemma {:induction false} DeferredSurvives(s: System, disc: Disc, inputs: seq<Input>)
    requires disc.Valid() && s.drive.pending.Some? && AllLeave(s, disc, inputs)
    ensures Run(s, disc, inputs).drive.pending == s.drive.pending
  {
    if inputs != [] {
      var n := |inputs| - 1;
      assert forall k :: 0 <= k < n ==> inputs[..n][..k] == inputs[..k];
      DeferredSurvives(s, disc, inputs[..n]);
      DeferredStays(Run(s, disc, inputs[..n]).drive, disc, inputs[n]);
    }
  }

  /** A command written while an interrupt is up waits, however long, and the acknowledge that clears the
      flag runs exactly that command, with exactly the parameters that had been written for it, even if
      the same write resets the parameter FIFO; after that nothing is deferred. */
  lemma DeferredRunsOnce(s: System, disc: Disc, cmd: Byte, unused: seq<Byte>, inputs: seq<Input>,
                         ack: Byte, report: seq<Byte>)
    requires disc.Valid() && Good(s) && s.drive.irqFlag != 0
    requires AllLeave(Step(s, disc, WriteCommand(cmd, unused)), disc, inputs)
    ensures var d := Run(Step(s, disc, WriteCommand(cmd, unused)), disc, inputs).drive;
            var a := React(d, disc, WriteIrqFlag(ack, report)).drive;
            Cleared(d, ack).irqFlag == 0 ==>
              a == Execute(Cleared(d, ack).(pending := None, io := Cleared(d, ack).io.(param := s.drive.io.param)),
                           disc, cmd, report).drive
              && a.pending.None?
  {
    var t := Step(s, disc, WriteCommand(cmd, unused));
    StepGood(s, disc, WriteCommand(cmd, unused));
    DeferredSurvives(t, disc, inputs);
    RunFromGood(t, disc, inputs);
    var d := Run(t, disc, inputs).drive;
    ReleasedGood(d, ack);
    if Cleared(d, ack).irqFlag == 0 { ExecuteGood(Released(Cleared(d, ack)), disc, cmd, report); }
  }

  /** A drive whose parameter FIFO holds p. */
  function WithParams(d: Drive, p: seq<Byte>): Drive { d.(io := d.io.(param := p)) }

  /** Parameters written after a command was deferred are lost exactly when the acknowledge releases it or
      resets the FIFO: then, and only then, two drives that differ in nothing else come out alike. */
  lemma LaterParametersLostIff(d: Drive, disc: Disc, ack: Byte, report: seq<Byte>, p: seq<Byte>, q: seq<Byte>)
    requires disc.Valid() && p != q
    ensures React(WithParams(d, p), disc, WriteIrqFlag(ack, report)).drive
            == React(WithParams(d, q), disc, WriteIrqFlag(ack, report)).drive
            <==> (d.pending.Some? && AndNot(d.irqFlag, ack % 32, 8) == 0) || Bit(ack, 0x40)
  {
    var a, b := Cleared(WithParams(d, p), ack), Cleared(WithParams(d, q), ack);
    if Bit(ack, 0x40) {
      assert a == b;
    } else {
      assert a.io.param == p && b.io.param == q;
    }
    if d.pending.Some? && a.irqFlag == 0 {
      assert Released(a) == Released(b);
    }
  }

  /** A parameter written between a deferred command and the acknowledge that releases it leaves no trace. */
  lemma LaterParameterLost(s: System, disc: Disc, cmd: Byte, unused: seq<Byte>, v: Byte, ack: Byte, report: seq<Byte>)
    requires disc.Valid() && s.drive.irqFlag != 0 && AndNot(s.drive.irqFlag, ack % 32, 8) == 0
    ensures var t := Step(s, disc, WriteCommand(cmd, unused));
            Step(Step(t, disc, WriteParam(v)), disc, WriteIrqFlag(ack, report))
            == Step(t, disc, WriteIrqFlag(ack, report))
  {
    var t := Step(s, disc, WriteCommand(cmd, unused));
    var u := Step(t, disc, WriteParam(v));
    assert u.drive == WithParams(t.drive, [v]);
    SameRelease(t.drive, u.drive, disc, ack, report);
  }

  /** A released command sees the drive alike whatever the parameter FIFO held. */
  lemma SameRelease(d: Drive, e: Drive, disc: Disc, ack: Byte, report: seq<Byte>)
    requires e == WithParams(d, e.io.param) && d.pending.Some? && AndNot(d.irqFlag, ack % 32, 8) == 0
    ensures AckWrite(d, disc, ack, report) == AckWrite(e, disc, ack, report)
  {
    assert Released(Cleared(d, ack)) == Released(Cleared(e, ack));
  }

  lemma {:induction false} RunFromGood(s: System, disc: Disc, inputs: seq<Input>)
    requires disc.Valid() && Good(s)
    ensures Good(Run(s, disc, inputs))
  {
    if inputs != [] {
      RunFromGood(s, disc, inputs[..|inputs| - 1]);
      StepGood(Run(s, disc, inputs[..|inputs| - 1]), disc, inputs[|inputs| - 1]);
    }
  }

  // ---- Commands against a full queue ----

  /** A command gets its acknowledge event exactly when the queue has room or the command empties it.
      With a full queue the event is dropped silently, although the source expects this never to happen. */
  lemma AcknowledgeQueuedIff(d: Drive, disc: Disc, cmd: Byte, report: seq<Byte>)
    requires GoodDrive(d) && d.pending.None?
    ensures var q, base := Execute(d, disc, cmd, report).drive.queue, if ClearsQueue(cmd) then [] else d.queue;
            if |d.queue| < QUEUE_SIZE || ClearsQueue(cmd) then |q| == |base| + 1 && q[..|base|] == base
            else q == d.queue
  {
    ExecuteGood(d, disc, cmd, report);
  }

  const Status := WriteCommand(0x01, [])

  /** n status commands in a row, before the first is answered. */
  function Statuses(n: nat): seq<Input> { if n == 0 then [] else Statuses(n - 1) + [Status] }

  /** So many acknowledges are waiting. */
  ghost predicate Waiting(s: System, n: nat) { s.drive.irqFlag == 0 && |s.drive.queue| == n <= QUEUE_SIZE }

  lemma OneStatus(s: System, n: nat)
    requires Waiting(s, n)
    ensures Waiting(Step(s, NoDisc, Status), if n < QUEUE_SIZE then n + 1 else n)
    ensures n == QUEUE_SIZE ==> Step(s, NoDisc, Status).drive.queue == s.drive.queue
  {
  }

  lemma {:induction false} StatusesQueued(n: nat)
    requires n <= QUEUE_SIZE
    ensures Waiting(Run(START, NoDisc, Statuses(n)), n)
  {
    if n > 0 {
      StatusesQueued(n - 1);
      var inputs := Statuses(n - 1);
      OneInputMore(START, NoDisc, inputs, Status);
      OneStatus(Run(START, NoDisc, inputs), n - 1);
    }
  }

  /** After four of them the fifth is never acknowledged. */
  lemma FifthCommandLost()
    ensures var four, five := Run(START, NoDisc, Statuses(4)), Run(START, NoDisc, Statuses(5));
            five.drive.queue == four.drive.queue && |four.drive.queue| == 4
  {
    StatusesQueued(4);
    OneInputMore(START, NoDisc, Statuses(4), Status);
    OneStatus(Run(START, NoDisc, Statuses(4)), 4);
  }
}
