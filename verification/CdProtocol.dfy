/** The CD-ROM controller as a protocol: commands and scheduler events as functions of the controller's
    state, and what every reachable state satisfies. `CdRom` proves the register-level code against it.
 */
module CdProtocol {

  import opened Words

  const CPU_HZ := 33868800
  const SECTOR_1X := CPU_HZ / 75
  const SECTOR_2X := CPU_HZ / 150
  const ACK_DELAY := CPU_HZ / 1000
  const CMD_DELAY := CPU_HZ / 200
  const TOC_DELAY := CPU_HZ * 3 / 5
  const MIN_SEEK_DELAY := 20000
  const LONG_SEEK_SECTORS := 7200
  const QUEUE_SIZE := 4
  const FIFO_SIZE := 16
  const U32 := 0x1_0000_0000

  datatype Option<+T> = None | Some(value: T)

  datatype Phase = Ack | InitAck | InitDone | SeekAck | SeekDone | GetIdAck | GetIdDone
                 | ReadTocAck | ReadTocDone | PauseAck | PauseDone | ReadData | Sector

  datatype CdEvent = CdEvent(intType: Byte, phase: Phase, delay: nat)

  datatype Motor = Idle | Reading | Seeking

  datatype Msf = Msf(m: Byte, s: Byte, f: Byte)

  /** A disc image: the raw bytes of every sector and where its user data starts. */
  datatype Disc = NoDisc | Disc(read: nat -> seq<Byte>, dataOffset: nat -> nat) {
    ghost predicate Valid() {
      Disc? ==> forall lba: nat :: |read(lba)| == 2352 && dataOffset(lba) + 2048 <= 2352
    }
  }

  function FromBcd(v: Byte): nat { v / 16 * 10 + v % 16 }

  predicate Bit(v: nat, weight: nat)
    requires weight > 0
  {
    v / weight % 2 == 1
  }

  /** The lowest n bits of a that are clear in b. */
  function AndNot(a: nat, b: nat, n: nat): (r: nat)
    ensures r <= a
  {
    if n == 0 then 0 else
      (if a % 2 == 1 && b % 2 == 0 then 1 else 0) + 2 * AndNot(a / 2, b / 2, n - 1)
  }

  /** Whether a and b have one of their lowest n bits in common. */
  predicate Overlap(a: nat, b: nat, n: nat) {
    n > 0 && ((a % 2 == 1 && b % 2 == 1) || Overlap(a / 2, b / 2, n - 1))
  }

  function MsfToLba(t: Msf): nat {
    ((FromBcd(t.m) * 60 + FromBcd(t.s)) * 75 + FromBcd(t.f) - 150) % U32
  }

  datatype Fifos = Fifos(param: seq<Byte>, resp: seq<Byte>, respPos: nat, data: seq<Byte>, dataPos: nat)

  datatype Deferred = Deferred(cmd: Byte, param: seq<Byte>)

  datatype Mechanics = Mechanics(motor: Motor, doubleSpeed: bool, playingCdda: bool, mode: Byte,
                                 seekTarget: Msf, seekPending: bool, seekLba: nat, seekDelay: nat,
                                 readSeekDelay: nat, curLba: nat)

  datatype Drive = Drive(io: Fifos, irqFlag: Byte, irqEn: Byte, queue: seq<CdEvent>,
                         pending: Option<Deferred>, mech: Mechanics)

  /** The controller after reset. */
  function InitialDrive(): Drive {
    Drive(Fifos([], [], 0, [], 0), 0, 0x1F, [], None,
          Mechanics(Idle, false, false, 0, Msf(0, 0, 0), false, 0, 0, 0, 0))
  }

  function Stat(m: Mechanics, disc: Disc): Byte {
    (if disc.Disc? then 0x02 else 0) + (if m.motor == Reading then 0x20 else 0)
    + (if m.motor == Seeking then 0x40 else 0) + (if m.playingCdda then 0x80 else 0)
  }

  function Respond(d: Drive, bytes: seq<Byte>): Drive { d.(io := d.io.(resp := bytes, respPos := 0)) }

  function RespondStat(d: Drive, disc: Disc): Drive { Respond(d, [Stat(d.mech, disc)]) }

  /** The k-th parameter byte; missing parameters read as zero. */
  function Param(d: Drive, k: nat): Byte { if k < |d.io.param| then d.io.param[k] else 0 }

  function DropParams(d: Drive, n: nat): Drive {
    d.(io := d.io.(param := if n <= |d.io.param| then d.io.param[n..] else []))
  }

  function Period(m: Mechanics): nat { if m.doubleSpeed then SECTOR_2X else SECTOR_1X }

  function Clamp32(x: nat): nat { if x > U32 - 1 then U32 - 1 else x }

  function SeekDelay(m: Mechanics, target: nat): (delay: nat)
    ensures 0 < delay < U32
  {
    var distance := if m.curLba > target then m.curLba - target else target - m.curLba;
    var base := distance * (SECTOR_1X / 2000);
    var delay := if distance >= LONG_SEEK_SECTORS then CPU_HZ / 7 + distance * 64
                 else if base < MIN_SEEK_DELAY then MIN_SEEK_DELAY else base;
    Clamp32(delay + (if m.motor == Reading then Period(m) / 2 else Period(m)))
  }

  // ---- Reactions ----

  /** A new state, the scheduler delay requested if any, and the effect on the interrupt line. */
  datatype Line = Keep | Raise | Lower
  datatype Reaction = Reaction(drive: Drive, wake: Option<nat>, line: Line)

  /** A full queue swallows the event. */
  function Push(d: Drive, e: CdEvent): Drive {
    if |d.queue| >= QUEUE_SIZE then d else d.(queue := d.queue + [e])
  }

  function Queue(d: Drive, e: CdEvent): Reaction {
    Reaction(Push(d, e), if d.queue == [] then Some(e.delay) else None, Keep)
  }

  function Acknowledge(d: Drive): Reaction { Queue(d, CdEvent(3, Ack, ACK_DELAY)) }

  function StatAndAck(d: Drive, disc: Disc): Reaction { Acknowledge(RespondStat(d, disc)) }

  function Refuse(d: Drive, code: Byte): Reaction {
    Queue(Respond(d, [0x11, code]), CdEvent(5, Ack, ACK_DELAY))
  }

  // ---- Commands ----

  /** The mechanics a read or play command starts from. */
  function TakePosition(m: Mechanics): Mechanics {
    if m.seekPending then
      m.(readSeekDelay := SeekDelay(m, MsfToLba(m.seekTarget)), curLba := MsfToLba(m.seekTarget), seekPending := false)
    else m.(readSeekDelay := 0)
  }

  function StartReading(d: Drive, disc: Disc, cdda: bool): Reaction {
    var r := d.(mech := TakePosition(d.mech).(motor := Reading, playingCdda := cdda));
    Queue(RespondStat(r, disc), CdEvent(3, ReadData, ACK_DELAY))
  }

  function SeekStarted(m: Mechanics): Mechanics {
    var lba := if m.seekPending then MsfToLba(m.seekTarget) else m.curLba;
    m.(seekLba := lba, seekDelay := SeekDelay(m, lba), seekPending := false, motor := Seeking)
  }

  function Seek(d: Drive, disc: Disc): Reaction {
    Queue(RespondStat(d.(mech := SeekStarted(d.mech)), disc), CdEvent(3, SeekAck, ACK_DELAY))
  }

  function Init(d: Drive, disc: Disc): Reaction {
    var i := d.(queue := [], mech := d.mech.(doubleSpeed := false, playingCdda := false, mode := 0, motor := Idle));
    Queue(RespondStat(i, disc), CdEvent(3, InitAck, CMD_DELAY))
  }

  function Pause(d: Drive, disc: Disc): Reaction {
    var p := d.(queue := [], mech := d.mech.(motor := Idle, playingCdda := false));
    Queue(RespondStat(p, disc), CdEvent(3, PauseAck, ACK_DELAY))
  }

  function Stop(d: Drive, disc: Disc): Reaction {
    StatAndAck(d.(mech := d.mech.(motor := Idle, playingCdda := false)), disc)
  }

  function SetLoc(d: Drive, disc: Disc): Reaction {
    var target := Msf(Param(d, 0), Param(d, 1), Param(d, 2));
    StatAndAck(DropParams(d, 3).(mech := d.mech.(seekTarget := target, seekPending := true)), disc)
  }

  function SetMode(d: Drive, disc: Disc): Reaction {
    var m := Param(d, 0);
    StatAndAck(DropParams(d, 1).(mech := d.mech.(mode := m, doubleSpeed := Bit(m, 0x80))), disc)
  }

  function Test(d: Drive, disc: Disc): Reaction {
    var sub, t := Param(d, 0), DropParams(d, 1);
    if sub == 0x20 then Acknowledge(Respond(t, [0x97, 0x01, 0x10, 0xC2]))
    else if sub == 0x21 then Acknowledge(Respond(t, [0x00]))
    else if sub == 0x22 then Acknowledge(Respond(t, [0x66, 0x6F, 0x72, 0x20, 0x55, 0x2F, 0x43]))
    else if sub == 0x04 then StatAndAck(t, disc)
    else if sub == 0x05 then
      var licensed: Byte := if disc.Disc? then 1 else 0;
      Acknowledge(Respond(t, [licensed, licensed]))
    else Refuse(t, 0x10)
  }

  /** The dispatch. `report` stands for the bytes of the four commands that read the table of contents
      or the current position. */
  function Execute(d: Drive, disc: Disc, cmd: Byte, report: seq<Byte>): Reaction {
    match cmd
    case 0x01 => StatAndAck(d, disc)
    case 0x02 => SetLoc(d, disc)
    case 0x03 => StartReading(d, disc, true)
    case 0x06 => StartReading(d, disc, false)
    case 0x1B => StartReading(d, disc, false)
    case 0x08 => Stop(d, disc)
    case 0x09 => Pause(d, disc)
    case 0x0A => Init(d, disc)
    case 0x0B => StatAndAck(d, disc)
    case 0x0C => StatAndAck(d, disc)
    case 0x0D => StatAndAck(DropParams(d, 2), disc)
    case 0x0E => SetMode(d, disc)
    case 0x10 => Acknowledge(Respond(d, report))
    case 0x11 => Acknowledge(Respond(d, report))
    case 0x13 => Acknowledge(Respond(d, report))
    case 0x14 => Acknowledge(Respond(DropParams(d, 1), report))
    case 0x15 => Seek(d, disc)
    case 0x16 => Seek(d, disc)
    case 0x19 => Test(d, disc)
    case 0x1A => Queue(RespondStat(d, disc), CdEvent(3, GetIdAck, ACK_DELAY))
    case 0x1E => Queue(RespondStat(d.(mech := d.mech.(motor := Seeking)), disc), CdEvent(3, ReadTocAck, ACK_DELAY))
    case _ => Refuse(d, 0x40)
  }

  function Defer(d: Drive, cmd: Byte): Drive {
    d.(pending := Some(Deferred(cmd, d.io.param)), io := d.io.(param := []))
  }

  /** Writing the command register: deferred while an interrupt is unacknowledged. */
  function Command(d: Drive, disc: Disc, cmd: Byte, report: seq<Byte>): Reaction {
    if d.irqFlag != 0 then Reaction(Defer(d, cmd), None, Keep) else Execute(d, disc, cmd, report)
  }

  function Released(d: Drive): Drive
    requires d.pending.Some?
  {
    d.(pending := None, io := d.io.(param := d.pending.value.param))
  }

  /** The effect of an acknowledge write before a deferred command is looked at. */
  function Cleared(d: Drive, val: Byte): Drive {
    var a := d.(irqFlag := AndNot(d.irqFlag, val % 32, 8));
    var b := if val % 32 != 0 then Respond(a, []) else a;
    if Bit(val, 0x40) then b.(io := b.io.(param := [])) else b
  }

  /** Writing the interrupt flag register. */
  function AckWrite(d: Drive, disc: Disc, val: Byte, report: seq<Byte>): Reaction {
    var c := Cleared(d, val);
    var line := if c.irqFlag == 0 then Lower else Keep;
    if c.pending.Some? && c.irqFlag == 0 then
      Execute(Released(c), disc, c.pending.value.cmd, report).(line := line)
    else Reaction(c, None, line)
  }

  // ---- Scheduler events ----

  function Commit(d: Drive, intType: Byte): Drive { d.(irqFlag := intType) }

  function SectorData(m: Mechanics, disc: Disc): seq<Byte>
    requires disc.Disc? && |disc.read(m.curLba)| == 2352 && disc.dataOffset(m.curLba) + 2048 <= 2352
  {
    if m.playingCdda then []
    else if Bit(m.mode, 0x20) then disc.read(m.curLba)[12..]
    else disc.read(m.curLba)[disc.dataOffset(m.curLba)..disc.dataOffset(m.curLba) + 2048]
  }

  /** A sector may be handed over: nothing unacknowledged, nothing deferred, and the drive reading. */
  predicate Deliverable(d: Drive, disc: Disc) {
    d.irqFlag == 0 && d.pending.None? && d.mech.motor == Reading && disc.Disc?
  }

  function Loaded(d: Drive, disc: Disc): Drive
    requires disc.Valid() && disc.Disc?
  {
    d.(io := d.io.(data := SectorData(d.mech, disc), dataPos := 0),
       mech := d.mech.(curLba := (d.mech.curLba + 1) % U32))
  }

  function DeliverSector(d: Drive, disc: Disc): Drive
    requires disc.Valid()
  {
    if d.irqFlag != 0 || d.pending.Some? then Push(d, CdEvent(1, Sector, ACK_DELAY))
    else if d.mech.motor != Reading then d
    else if disc.NoDisc? then
      Push(Respond(d.(mech := d.mech.(motor := Idle)), [0x09, 0x80]), CdEvent(5, Ack, ACK_DELAY))
    else Push(Commit(RespondStat(Loaded(d, disc), disc), 1), CdEvent(1, Sector, Period(d.mech)))
  }

  function Identity(m: Mechanics, disc: Disc): seq<Byte> {
    if disc.NoDisc? then [0x08, 0x40, 0, 0, 0, 0, 0, 0]
    else [Stat(m, disc), 0x00, 0x20, 0x00, 0x53, 0x43, 0x45, 0x41]
  }

  function FirstSectorDelay(m: Mechanics): nat { Clamp32(Period(m) + m.readSeekDelay) }

  /** A second response: the drive falls idle and reports its status. */
  function Finish(d: Drive, disc: Disc, e: CdEvent): Drive {
    Commit(RespondStat(d.(mech := d.mech.(motor := Idle)), disc), e.intType)
  }

  /** One event, already taken off the queue. */
  function Perform(d: Drive, disc: Disc, e: CdEvent): Drive
    requires disc.Valid()
  {
    match e.phase
    case Ack => Commit(d, e.intType)
    case InitAck => Push(Commit(d, e.intType), CdEvent(2, InitDone, CMD_DELAY))
    case InitDone => Finish(d, disc, e)
    case SeekAck => Push(Commit(d, e.intType), CdEvent(2, SeekDone, d.mech.seekDelay))
    case SeekDone => Finish(d.(mech := d.mech.(curLba := d.mech.seekLba)), disc, e)
    case GetIdAck => Push(Commit(d, e.intType), CdEvent(if disc.Disc? then 2 else 5, GetIdDone, CMD_DELAY))
    case GetIdDone => Commit(Respond(d, Identity(d.mech, disc)), e.intType)
    case ReadTocAck => Push(Commit(d, e.intType), CdEvent(2, ReadTocDone, TOC_DELAY))
    case ReadTocDone => Finish(d, disc, e)
    case PauseAck => Push(Commit(d, e.intType), CdEvent(2, PauseDone, CMD_DELAY))
    case PauseDone => Finish(d, disc, e)
    case ReadData =>
      Push(Commit(d.(mech := d.mech.(readSeekDelay := 0)), e.intType), CdEvent(1, Sector, FirstSectorDelay(d.mech)))
    case Sector => DeliverSector(d, disc)
  }

  /** Whether the event signals an interrupt to the CPU. */
  predicate Signals(d: Drive, disc: Disc, e: CdEvent) {
    e.phase == Sector ==> Deliverable(d, disc)
  }

  function SignalType(e: CdEvent): Byte { if e.phase == Sector then 1 else e.intType }

  function Wake(d: Drive): Option<nat> { if d.queue == [] then None else Some(d.queue[0].delay) }

  function OnEvent(d: Drive, disc: Disc): Reaction
    requires disc.Valid()
  {
    if d.queue == [] then Reaction(d, None, Keep) else
      var e, p := d.queue[0], d.(queue := d.queue[1..]);
      var q := Perform(p, disc, e);
      Reaction(q, Wake(q), if Signals(p, disc, e) && Overlap(SignalType(e), d.irqEn, 8) then Raise else Keep)
  }
}
