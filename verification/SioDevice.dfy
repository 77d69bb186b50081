/** The serial port as the emulator runs it: one object for the card's registers and buffers, one for
    the port. Every method is proved to act on the abstract state as `MemoryCard.Respond` and
    `SerialPort.Apply` say, while a ghost history keeps the bytes of the current transaction.
 */
module SioDevice {

  import opened MemoryCard
  import opened SerialPort
  import opened Interrupts
  import opened Words

  class CardDevice {
    const memory: array<Byte>
    const staged: array<Byte>
    var isNew: bool
    var pos: nat
    var command: Byte
    var sector: nat
    var checksum: Byte
    var received: Byte
    var writeValid: bool

    ghost function Repr(): set<object> { {this, memory, staged} }

    ghost predicate Valid()
      reads this
    {
      memory.Length == CARD && staged.Length == SECTOR && sector < U16 && pos < U16
    }

    ghost function Regs(): Registers
      reads this
    {
      Registers(pos, command, sector, checksum, received, writeValid)
    }

    ghost function State(): (c: Card)
      reads this, memory, staged
      requires Valid()
      ensures c.Valid()
    {
      Card(memory[..], isNew, staged[..], Regs())
    }

    constructor ()
      ensures Valid() && fresh(Repr()) && pos == 0
    {
      memory, staged := new Byte[CARD](_ => 0), new Byte[SECTOR](_ => 0);
      isNew, pos, command, sector, checksum, received, writeValid := false, 0, 0, 0, 0, 0, false;
    }

    method HeaderByte(at: nat, v: Byte) returns (reply: Byte)
      requires Valid() && at < 6
      modifies this`command, this`sector, this`checksum
      ensures Valid()
      ensures (Regs(), reply) == Header(old(Regs()), at, isNew, v)
    {
      if at == 0 { return 0xFF; }
      if at == 1 {
        command := v;
        return if isNew then FLAG_NEW else 0;
      }
      if at == 2 { return 0x5A; }
      if at == 3 { return 0x5D; }
      if at == 4 {
        var high: int := v;
        sector := high * 256;
        checksum := v;
        return 0;
      }
      sector := sector / 256 * 256 + Or(sector % 256, v);
      checksum := Xor(checksum, v);
      return sector / 256;
    }

    method ReadByte(at: nat) returns (reply: Byte)
      requires Valid() && 6 <= at
      modifies this`checksum, this`isNew
      ensures Valid()
      ensures (State(), reply) == ReadReply(old(State()), at)
    {
      if at == 6 { return 0x5C; }
      if at == 7 { return 0x5D; }
      if at == 8 { return sector / 256; }
      if at == 9 { return sector % 256; }
      if at < 138 {
        var b := memory[sector % SECTORS * SECTOR + at - 10];
        checksum := Xor(checksum, b);
        return b;
      }
      if at == 138 { return checksum; }
      if at == 139 {
        isNew := false;
        return 0x47;
      }
      return 0xFF;
    }

    method CopySector()
      requires Valid()
      modifies memory
      ensures Valid() && memory[..] == Spliced(old(memory[..]), sector, staged[..])
    {
      var offset := sector % SECTORS * SECTOR;
      var i := 0;
      while i < SECTOR
        invariant 0 <= i <= SECTOR
        invariant memory[..] == old(memory[..offset]) + staged[..i] + old(memory[offset + i..])
      {
        memory[offset + i] := staged[i];
        i := i + 1;
      }
      assert staged[..SECTOR] == staged[..];
    }

    method WriteByte(at: nat, v: Byte, flushed: bool) returns (reply: Byte)
      requires Valid() && 6 <= at
      modifies this`checksum, this`received, this`writeValid, this`isNew, memory, staged
      ensures Valid()
      ensures (State(), reply) == WriteReply(old(State()), at, v, flushed)
    {
      if at < 134 {
        staged[at - 6] := v;
        checksum := Xor(checksum, v);
        return if at == 6 then sector % 256 else staged[at - 7];
      }
      if at == 134 {
        received := v;
        writeValid := v == checksum && sector < SECTORS;
        return staged[127];
      }
      if at == 135 { return 0x5C; }
      if at == 136 { return 0x5D; }
      if at == 137 {
        if writeValid {
          CopySector();
          isNew := false;
          return if flushed then 0x47 else 0x4E;
        }
        return 0x4E;
      }
      return 0xFF;
    }

    method Response(v: Byte, flushed: bool) returns (reply: Byte)
      requires Valid()
      modifies Repr()
      ensures Valid()
      ensures (State(), reply) == Respond(old(State()), v, flushed)
    {
      var at := pos;
      pos := (pos + 1) % U16;
      if at < 6 {
        reply := HeaderByte(at, v);
      } else if command == 0x52 {
        reply := ReadByte(at);
      } else if command == 0x57 {
        reply := WriteByte(at, v, flushed);
      } else {
        reply := 0xFF;
      }
    }

    method Reset()
      requires Valid()
      modifies this`pos, this`command, this`checksum, this`received, this`writeValid
      ensures Valid() && State() == ResetCard(old(State()))
    {
      pos, command, checksum, received, writeValid := 0, 0, 0, 0, false;
    }
  }

  class Sio {
    const card: CardDevice
    const rxBuf: array<Byte>
    var rxLen: nat
    var rxPos: nat
    var present: bool
    var control: Control
    var selected: bool
    var secondSlot: bool
    var txCount: nat
    var cardAccess: bool
    var padAccess: bool
    var padCommand: Byte
    var signal: Signal
    ghost var got: seq<Byte>

    ghost function Repr(): set<object> { card.Repr() + {this, rxBuf} }

    ghost predicate Shaped()
      reads this, card
    {
      card.Valid() && rxBuf.Length == RX_SIZE && rxPos <= rxLen <= RX_SIZE && txCount < 256
    }

    ghost function WireState(): (w: Wire)
      reads this, rxBuf
      requires rxBuf.Length == RX_SIZE && rxLen <= RX_SIZE
    {
      Wire(control, selected, secondSlot, txCount, Access(cardAccess, padAccess, padCommand), rxBuf[..rxLen], rxPos)
    }

    ghost function State(): (p: Port)
      reads this, rxBuf, card, card.memory, card.staged
      requires Shaped()
    {
      Port(card.State(), present, WireState(), signal)
    }

    ghost predicate Valid()
      reads this, rxBuf, card, card.memory, card.staged
    {
      Shaped() && Good(State(), got)
    }

    constructor ()
      ensures Valid() && fresh(Repr())
    {
      card := new CardDevice();
      rxBuf := new Byte[RX_SIZE](_ => 0);
      rxLen, rxPos, present, control, selected, secondSlot := 0, 0, false, ClearControl, false, false;
      txCount, cardAccess, padAccess, padCommand, got := 0, false, false, 0, [];
      signal := Signal(false, false, 0, 0, 0x88);
    }

    method ResetTransaction()
      requires Shaped()
      modifies Repr()
      ensures Shaped() && State() == SerialPort.ResetTransaction(old(State()))
      ensures got == old(got)
    {
      card.Reset();
      rxLen, rxPos, txCount, selected, secondSlot := 0, 0, 0, false, false;
      cardAccess, padAccess, padCommand := false, false, 0;
      signal := signal.(ackActive := false);
    }

    method ChooseDevice(v: Byte, configMode: bool)
      requires Shaped()
      modifies this`cardAccess, this`padAccess, this`padCommand
      ensures Access(cardAccess, padAccess, padCommand) == Addressed(old(WireState()), present, v, configMode)
    {
      if txCount == 0 {
        cardAccess := v == ADDRESS_CARD && present && !secondSlot;
        padAccess := v == ADDRESS_PAD;
      } else if txCount == 1 && padAccess {
        padCommand := v;
        padAccess := v == 0x42 || v == 0x43
          || (configMode && (v == 0x44 || v == 0x45 || v == 0x46 || v == 0x47 || v == 0x4C || v == 0x4D));
      }
    }

    method DropIfRead()
      requires Shaped()
      modifies this`rxPos, this`rxLen
      ensures Shaped() && rxBuf[..rxLen] == Received(old(WireState()))
      ensures rxPos == if old(rxPos >= rxLen) then 0 else old(rxPos)
    {
      if rxPos >= rxLen {
        rxPos, rxLen := 0, 0;
      }
    }

    method Prepare(v: Byte, configMode: bool)
      requires Shaped()
      modifies this`rxPos, this`rxLen, this`cardAccess, this`padAccess, this`padCommand
      ensures Shaped() && WireState() == Ready(old(WireState()), present, v, configMode)
    {
      DropIfRead();
      ChooseDevice(v, configMode);
    }

    method Push(reply: Byte)
      requires Shaped() && rxLen < RX_SIZE
      modifies this`rxLen, rxBuf
      ensures Shaped() && rxLen == old(rxLen) + 1 && rxBuf[..rxLen] == old(rxBuf[..rxLen]) + [reply]
    {
      rxBuf[rxLen] := reply;
      rxLen := rxLen + 1;
    }

    method Exchange(v: Byte, world: World)
      requires Shaped()
      modifies card.Repr(), this`rxLen, this`signal, rxBuf
      ensures Shaped()
      ensures (card.State(), rxBuf[..rxLen]) == Exchanged(old(card.State()), old(WireState()), v, world)
      ensures signal == if Acknowledges(old(WireState()), card.State(), world)
                        then old(signal).(countdown := old(signal).ByteCycles()) else old(signal)
    {
      if rxLen < RX_SIZE {
        var reply: Byte := 0xFF;
        if selected && cardAccess {
          reply := card.Response(v, world.flushed);
        } else if selected && padAccess {
          reply := world.padReply;
        }
        Push(reply);
        var cardAck := cardAccess && WithinProtocol(card.command, card.pos);
        if selected && (cardAck || (padAccess && txCount + 1 < world.padLength)) {
          signal := signal.(countdown := signal.ByteCycles());
        }
      }
    }

    /** The transmit register: `world` holds the controller's mode and reply and whether saving succeeds. */
    method Transmit(v: Byte, world: World)
      requires Shaped() && State().Valid()
      modifies Repr()
      ensures Shaped() && State() == Transmitted(old(State()), v, world) && got == old(got)
    {
      Prepare(v, world.configMode);
      Exchange(v, world);
      txCount := (txCount + 1) % 256;
    }

    method StoreTransmit(v: Byte, world: World)
      requires Valid()
      modifies Repr()
      ensures Valid() && State() == Apply(old(State()), Op.Transmit(v, world))
      ensures got == Remembered(old(State()), old(got), Op.Transmit(v, world))
    {
      ghost var before := State();
      Transmit(v, world);
      ApplyGood(before, got, Op.Transmit(v, world));
      got := Remembered(before, got, Op.Transmit(v, world));
    }

    method LoadReceive() returns (v: Byte)
      requires Valid()
      modifies this`rxPos, this`rxLen
      ensures Valid() && State() == Apply(old(State()), Receive) && got == old(got)
      ensures v == ReadValue(old(State()).wire)
    {
      v := 0xFF;
      if rxPos < rxLen {
        v := rxBuf[rxPos];
        rxPos := rxPos + 1;
      }
      if rxPos >= rxLen {
        rxPos, rxLen := 0, 0;
      }
    }

    method Select(slot: bool)
      requires Shaped()
      modifies this
      ensures Shaped() && got == old(got) && signal == old(signal)
      ensures WireState() == if old(selected) then old(WireState()).(secondSlot := slot)
                             else Wire(control, true, slot, 0, NoAccess, [], 0)
      ensures control == old(control) && present == old(present)
    {
      var wasSelected := selected;
      selected, secondSlot := true, slot;
      if !wasSelected {
        txCount, rxLen, rxPos := 0, 0, 0;
        cardAccess, padAccess, padCommand := false, false, 0;
      }
    }

    /** The control register. */
    method Steer(written: Control)
      requires Shaped() && State().Valid()
      modifies Repr()
      ensures Shaped() && State() == Controlled(old(State()), written) && got == old(got)
    {
      var value := if written.AckOnly() then control.(ack := true) else written;
      control := value;
      if value.reset {
        ResetTransaction();
        control, signal := ClearControl, signal.(irqPending := false, countdown := 0);
      } else {
        if value.ack { signal := signal.(irqPending := false); }
        control := value.(ack := false);
        if value.select {
          Select(value.secondSlot);
        } else if selected {
          ResetTransaction();
        }
      }
    }

    method StoreControl(written: Control)
      requires Valid()
      modifies Repr()
      ensures Valid() && State() == Apply(old(State()), WriteControl(written))
      ensures got == Remembered(old(State()), old(got), WriteControl(written))
    {
      ghost var before := State();
      Steer(written);
      ApplyGood(before, got, WriteControl(written));
      got := Remembered(before, got, WriteControl(written));
    }

    method EjectCard()
      requires Valid()
      modifies Repr()
      ensures Valid() && State() == Apply(old(State()), Eject) && got == []
    {
      ApplyGood(State(), got, Eject);
      present, card.isNew := false, false;
      ResetTransaction();
      got := [];
    }

    /** The status register; reading it drops the acknowledge line. */
    method LoadStatus() returns (bits: nat)
      requires Valid()
      modifies this`signal
      ensures Valid() && State() == Apply(old(State()), ReadStatus) && got == old(got)
      ensures bits == Status(old(State()))
    {
      bits := 5;
      if rxPos < rxLen { bits := bits + 0x02; }
      if signal.ackActive { bits := bits + 0x80; }
      if signal.irqPending { bits := bits + 0x200; }
      signal := signal.(ackActive := false);
    }

    method StoreMode(m: Half)
      requires Valid()
      modifies this`signal
      ensures Valid() && State() == Apply(old(State()), WriteMode(m)) && got == old(got)
    {
      signal := signal.(mode := m);
    }

    method StoreBaud(b: Half)
      requires Valid()
      modifies this`signal
      ensures Valid() && State() == Apply(old(State()), WriteBaud(b)) && got == old(got)
    {
      signal := signal.(baud := b);
    }

    /** Time passes; the interrupt line is held while the interrupt is pending. */
    method Step(cycles: nat, irq: Irq)
      requires Valid()
      modifies this`signal, irq
      ensures Valid() && State() == Apply(old(State()), Elapse(cycles)) && got == old(got)
      ensures irq.State() == old(irq.State()).AfterIf(signal.irqPending, Source.Sio)
    {
      if signal.countdown > 0 {
        if cycles >= signal.countdown {
          signal := signal.(countdown := 0, irqPending := true, ackActive := true);
        } else {
          signal := signal.(countdown := signal.countdown - cycles);
        }
      }
      if signal.irqPending { irq.Assert(Source.Sio); }
    }
  }
}
