/** The serial port in front of the memory card: select and reset, the transmit and receive
    registers, and what any sequence of them can do to the card's memory.

    The controller's replies, its configuration mode and the outcome of saving the card image are
    inputs, so every statement holds for all of them.
 */
module SerialPort {

  import opened MemoryCard
  import opened Arith
  import opened Words

  const RX_SIZE := 16
  const ADDRESS_CARD: Byte := 0x81
  const ADDRESS_PAD: Byte := 0x01

  /** The bits of the control register that the port acts on; `other` is the rest of the value. */
  datatype Control = Control(select: bool, ack: bool, reset: bool, secondSlot: bool, other: nat)
  {
    predicate AckOnly() { ack && !select && !reset && !secondSlot && other == 0 }
  }

  datatype Access = Access(card: bool, pad: bool, padCommand: Byte)

  const NoAccess := Access(false, false, 0)

  datatype Wire = Wire(control: Control, selected: bool, secondSlot: bool, txCount: nat, access: Access,
                       rx: seq<Byte>, rxPos: nat)
  {
    predicate Valid() { txCount < 256 && rxPos <= |rx| <= RX_SIZE }
  }

  /** The acknowledge line, the interrupt and its countdown, and the registers that set the bit rate. */
  datatype Signal = Signal(ackActive: bool, irqPending: bool, countdown: nat, mode: Half, baud: Half)
  {
    /** The time one byte takes, in system cycles. */
    function ByteCycles(): nat {
      var factor := if mode % 4 == 2 then 16 else if mode % 4 == 3 then 64 else 1;
      (if baud == 0 then 1 else baud) * factor * 8
    }

    function Elapsed(cycles: nat): Signal {
      if countdown == 0 then this
      else if cycles >= countdown then this.(countdown := 0, irqPending := true, ackActive := true)
      else this.(countdown := countdown - cycles)
    }
  }

  datatype Port = Port(card: Card, present: bool, wire: Wire, signal: Signal)
  {
    /** A deselected card always stands at the start of a transaction. */
    predicate Valid() { wire.Valid() && card.Valid() && (!wire.selected ==> card.regs.pos == 0) }
  }

  // ---- Operations as functions of the state ----

  const ClearControl := Control(false, false, false, false, 0)

  function ResetWire(control: Control): Wire { Wire(control, false, false, 0, NoAccess, [], 0) }

  function ResetCard(c: Card): (d: Card)
    requires c.Valid()
    ensures d.Valid()
  {
    c.(regs := Registers(0, 0, c.regs.sector, 0, 0, false))
  }

  function ResetTransaction(p: Port): Port
    requires p.card.Valid()
  {
    p.(card := ResetCard(p.card), wire := ResetWire(p.wire.control), signal := p.signal.(ackActive := false))
  }

  /** What the first two bytes of a transaction choose. */
  function Addressed(w: Wire, present: bool, v: Byte, configMode: bool): Access {
    if w.txCount == 0 then
      Access(v == ADDRESS_CARD && present && !w.secondSlot, v == ADDRESS_PAD, w.access.padCommand)
    else if w.txCount == 1 && w.access.pad then
      Access(w.access.card,
             v == 0x42 || v == 0x43
             || (configMode && (v == 0x44 || v == 0x45 || v == 0x46 || v == 0x47 || v == 0x4C || v == 0x4D)),
             v)
    else w.access
  }

  /** The controller on the port: its mode, its reply to this byte and the length of its reply; and whether the
      card image can be saved. */
  datatype World = World(configMode: bool, padReply: Byte, padLength: nat, flushed: bool)

  /** The receive buffer as the transmit path sees it: dropped once everything in it has been read. */
  function Received(w: Wire): seq<Byte> { if w.rxPos >= |w.rx| then [] else w.rx }

  /** Whether this byte reaches the card. */
  predicate Reaches(p: Port, v: Byte, world: World) {
    |Received(p.wire)| < RX_SIZE && p.wire.selected
    && Addressed(p.wire, p.present, v, world.configMode).card
  }

  /** The card and the receive buffer once the byte has been clocked out, for an addressed wire. */
  function Exchanged(c: Card, w: Wire, v: Byte, world: World): (Card, seq<Byte>)
    requires c.Valid()
  {
    if |w.rx| >= RX_SIZE then (c, w.rx)
    else if w.selected && w.access.card then
      var (d, reply) := Respond(c, v, world.flushed);
      (d, w.rx + [reply])
    else (c, w.rx + [if w.selected && w.access.pad then world.padReply else 0xFF])
  }

  /** The wire once the byte has been looked at and a fully read receive buffer dropped. */
  function Ready(w: Wire, present: bool, v: Byte, configMode: bool): Wire {
    w.(access := Addressed(w, present, v, configMode), rx := Received(w),
       rxPos := if w.rxPos >= |w.rx| then 0 else w.rxPos)
  }

  /** Whether the device acknowledges the byte: the card within its protocol, the controller before the end of its
      reply. c: the card after the byte. */
  predicate Acknowledges(w: Wire, c: Card, world: World) {
    && |w.rx| < RX_SIZE && w.selected
    && ((w.access.card && WithinProtocol(c.regs.command, c.regs.pos))
        || (w.access.pad && w.txCount + 1 < world.padLength))
  }

  /** The card acknowledges every byte of a transaction but its last. */
  predicate WithinProtocol(command: Byte, pos: nat) {
    (command == 0x52 && pos <= 139) || (command == 0x57 && pos <= 137) || pos <= 5
  }

  function Transmitted(p: Port, v: Byte, world: World): (r: Port)
    requires p.Valid()
  {
    var w := Ready(p.wire, p.present, v, world.configMode);
    var (card, rx) := Exchanged(p.card, w, v, world);
    p.(card := card, wire := w.(txCount := (w.txCount + 1) % 256, rx := rx),
       signal := if Acknowledges(w, card, world) then p.signal.(countdown := p.signal.ByteCycles()) else p.signal)
  }

  function ReadValue(w: Wire): Byte
    requires w.Valid()
  {
    if w.rxPos < |w.rx| then w.rx[w.rxPos] else 0xFF
  }

  function AfterRead(w: Wire): Wire
    requires w.Valid()
  {
    if w.rxPos + 1 < |w.rx| then w.(rxPos := w.rxPos + 1) else w.(rx := [], rxPos := 0)
  }

  /** A write to the control register. */
  function Controlled(p: Port, written: Control): Port
    requires p.Valid()
  {
    var value := if written.AckOnly() then p.wire.control.(ack := true) else written;
    if value.reset then
      var r := ResetTransaction(p);
      r.(wire := r.wire.(control := ClearControl), signal := r.signal.(irqPending := false, countdown := 0))
    else
      var control := value.(ack := false);
      var q := p.(signal := if value.ack then p.signal.(irqPending := false) else p.signal);
      if value.select && !p.wire.selected then
        q.(wire := Wire(control, true, value.secondSlot, 0, NoAccess, [], 0))
      else if value.select then
        q.(wire := p.wire.(control := control, secondSlot := value.secondSlot))
      else if p.wire.selected then
        ResetTransaction(q.(wire := p.wire.(control := control)))
      else
        q.(wire := p.wire.(control := control))
  }

  function Ejected(p: Port): Port
    requires p.Valid()
  {
    ResetTransaction(p.(present := false, card := p.card.(isNew := false)))
  }

  /** The status register: transmitter always ready and idle, then received data, acknowledge and interrupt. */
  function Status(p: Port): nat {
    5 + (if p.wire.rxPos < |p.wire.rx| then 0x02 else 0) + (if p.signal.ackActive then 0x80 else 0)
    + (if p.signal.irqPending then 0x200 else 0)
  }

  /** A byte is eight bits of `baud` cycles each, 16 or 64 times as long in modes 2 and 3; a rate of 0 counts as 1. */
  lemma EightBits(s: Signal)
    ensures var bit: nat := if s.baud == 0 then 1 else s.baud;
            && (s.mode % 4 <= 1 ==> s.ByteCycles() == 8 * bit)
            && (s.mode % 4 == 2 ==> s.ByteCycles() == 128 * bit)
            && (s.mode % 4 == 3 ==> s.ByteCycles() == 512 * bit)
  {
  }

  /** The bits a program polls. */
  lemma StatusBits(p: Port)
    ensures var s := Status(p);
            && BitAt(s, 0) && BitAt(s, 2)
            && (BitAt(s, 1) <==> p.wire.rxPos < |p.wire.rx|)
            && (BitAt(s, 7) <==> p.signal.ackActive) && (BitAt(s, 9) <==> p.signal.irqPending)
  {
    var s := Status(p);
    BitAtIsBit(s, 0);
    BitAtIsBit(s, 1);
    BitAtIsBit(s, 2);
    BitAtIsBit(s, 7);
    BitAtIsBit(s, 9);
    SmallPowers();
  }

  datatype Op = Transmit(value: Byte, world: World) | Receive | WriteControl(written: Control) | Eject
              | ReadStatus | WriteMode(mode: Half) | WriteBaud(baud: Half) | Elapse(cycles: nat)

  function Apply(p: Port, op: Op): Port
    requires p.Valid()
  {
    match op
    case Transmit(v, world) => Transmitted(p, v, world)
    case Receive => p.(wire := AfterRead(p.wire))
    case WriteControl(written) => Controlled(p, written)
    case Eject => Ejected(p)
    case ReadStatus => p.(signal := p.signal.(ackActive := false))
    case WriteMode(m) => p.(signal := p.signal.(mode := m))
    case WriteBaud(b) => p.(signal := p.signal.(baud := b))
    case Elapse(n) => p.(signal := p.signal.Elapsed(n))
  }

  /** The interrupt for an acknowledged byte comes exactly one byte time later, however the time is cut up. */
  lemma AcknowledgeOnTime(s: Signal, m: nat, n: nat)
    ensures s.Elapsed(m).Elapsed(n) == s.Elapsed(m + n)
    ensures s.countdown > 0 && !s.irqPending ==> (s.Elapsed(m).irqPending <==> m >= s.countdown)
  {
  }

  // ---- Histories and runs ----

  /** The bytes the card has received since position 0, after one more operation. */
  function Remembered(p: Port, got: seq<Byte>, op: Op): seq<Byte>
    requires p.Valid()
  {
    if op.Transmit? && Reaches(p, op.value, op.world) then Heard(got, op.value)
    else if Apply(p, op).wire.selected then got
    else []
  }

  /** The transaction that this operation completes, if it does. */
  predicate Completes(p: Port, got: seq<Byte>, op: Op) {
    op.Transmit? && Reaches(p, op.value, op.world) && CompletesWrite(got)
  }

  predicate Good(p: Port, got: seq<Byte>) {
    && p.Valid() && Tracks(p.card, got) && (!p.wire.selected ==> got == [])
  }

  lemma TransmitGood(p: Port, got: seq<Byte>, v: Byte, world: World)
    requires Good(p, got)
    ensures var op := Transmit(v, world); Good(Apply(p, op), Remembered(p, got, op))
    ensures Apply(p, Transmit(v, world)).card.memory
            == if Completes(p, got, Transmit(v, world)) then MemoryAfter(p.card.memory, got) else p.card.memory
  {
    if Reaches(p, v, world) {
      TracksStep(p.card, got, v, world.flushed);
      MemoryChangesOnlySo(p.card, got, v, world.flushed);
    }
  }

  lemma ControlGood(p: Port, got: seq<Byte>, written: Control)
    requires Good(p, got)
    ensures var op := WriteControl(written); Good(Apply(p, op), Remembered(p, got, op))
    ensures Apply(p, WriteControl(written)).card.memory == p.card.memory
  {
  }

  /** Every operation keeps the card in step with its history, and only a completed write changes memory. */
  lemma ApplyGood(p: Port, got: seq<Byte>, op: Op)
    requires Good(p, got)
    ensures Good(Apply(p, op), Remembered(p, got, op))
    ensures Apply(p, op).card.memory
            == if Completes(p, got, op) then Spliced(p.card.memory, SectorNumber(got), WriteData(got))
               else p.card.memory
  {
    match op
    case Transmit(v, world) => TransmitGood(p, got, v, world);
    case Receive =>
    case WriteControl(written) => ControlGood(p, got, written);
    case _ =>
  }

  /** The state and the current history after a sequence of operations. */
  function Run(p: Port, got: seq<Byte>, ops: seq<Op>): (r: (Port, seq<Byte>))
    requires Good(p, got)
    ensures Good(r.0, r.1)
  {
    if ops == [] then (p, got)
    else
      var (q, heard) := Run(p, got, ops[..|ops| - 1]);
      ApplyGood(q, heard, ops[|ops| - 1]);
      (Apply(q, ops[|ops| - 1]), Remembered(q, heard, ops[|ops| - 1]))
  }

  /** A write that a run completed: its sector and its bytes. */
  datatype Sent = Sent(sector: nat, bytes: seq<Byte>)

  type Stored = s: Sent | s.sector < SECTORS && |s.bytes| == SECTOR
    witness Sent(0, seq(SECTOR, i => 0))

  /** Exactly the writes that a run completed, in order. */
  function Writes(p: Port, got: seq<Byte>, ops: seq<Op>): (r: seq<Stored>)
    requires Good(p, got)
  {
    if ops == [] then []
    else
      var before := ops[..|ops| - 1];
      var (q, heard) := Run(p, got, before);
      Writes(p, got, before)
      + if Completes(q, heard, ops[|ops| - 1]) then [Sent(SectorNumber(heard), WriteData(heard))] else []
  }

  /** What a sector holds after a list of writes: the last write to it, or what it held at first. */
  function Latest(initial: seq<Byte>, writes: seq<Stored>, sector: nat): (r: seq<Byte>)
    requires |initial| == CARD && sector < SECTORS
    ensures |r| == SECTOR
  {
    if writes == [] then SectorBytes(initial, sector)
    else if writes[|writes| - 1].sector == sector then writes[|writes| - 1].bytes
    else Latest(initial, writes[..|writes| - 1], sector)
  }

  /** Over every run, every sector holds the data of the last completed write to it, and nothing else. */
  lemma {:induction false} MemoryIsLastWrite(p: Port, got: seq<Byte>, ops: seq<Op>, sector: nat)
    requires Good(p, got) && sector < SECTORS
    ensures SectorBytes(Run(p, got, ops).0.card.memory, sector)
            == Latest(p.card.memory, Writes(p, got, ops), sector)
  {
    if ops != [] {
      var before, op := ops[..|ops| - 1], ops[|ops| - 1];
      MemoryIsLastWrite(p, got, before, sector);
      var (q, heard) := Run(p, got, before);
      ApplyGood(q, heard, op);
      var writes := Writes(p, got, before);
      if Completes(q, heard, op) {
        var w: Stored := Sent(SectorNumber(heard), WriteData(heard));
        assert (writes + [w])[..|writes|] == writes;
        SplicedSectors(q.card.memory, w.sector, w.bytes, sector);
      } else {
        assert Writes(p, got, ops) == writes;
      }
    }
  }
}
