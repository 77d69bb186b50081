/** Using the memory card through the serial port: what a program gets that selects the port, sends the bytes of a
    read or a write one by one and fetches the reply to each.
 */
module PortSessions {

  import opened MemoryCard
  import opened SerialPort
  import opened Words

  /** One byte sent, what happens while the program waits, and then its reply fetched. */
  datatype Turn = Turn(value: Byte, world: World, waiting: seq<Op>)

  /** What a program does while it waits: it polls the status, sets the bit rate, or lets time pass. */
  predicate Idle(op: Op) { op.ReadStatus? || op.WriteMode? || op.WriteBaud? || op.Elapse? }

  type Patient = t: Turn | forall i :: 0 <= i < |t.waiting| ==> Idle(t.waiting[i])
    witness Turn(0, World(false, 0, 0, false), [])

  function Waited(p: Port, ops: seq<Op>): (r: Port)
    requires p.Valid() && forall i :: 0 <= i < |ops| ==> Idle(ops[i])
    ensures r == p.(signal := r.signal)
  {
    if ops == [] then p
    else
      var (q, op) := (Waited(p, ops[..|ops| - 1]), ops[|ops| - 1]);
      IdleKeeps(q, op);
      Apply(q, op)
  }

  lemma IdleKeeps(p: Port, op: Op)
    requires p.Valid() && Idle(op)
    ensures Apply(p, op) == p.(signal := Apply(p, op).signal)
  {
  }

  /** The port when the reply is about to be fetched. */
  function Replied(p: Port, t: Patient): (r: Port)
    requires p.Valid()
    ensures r.Valid()
  {
    Waited(Transmitted(p, t.value, t.world), t.waiting)
  }

  /** The port once the reply has been fetched, and the reply. */
  function Fetched(p: Port, t: Patient): (r: (Port, Byte))
    requires p.Valid()
    ensures r.0.Valid()
  {
    var asked := Replied(p, t);
    (Apply(asked, Receive), ReadValue(asked.wire))
  }

  /** The port after a sequence of turns, and the replies that were fetched. */
  function Conversation(p: Port, turns: seq<Patient>): (r: (Port, seq<Byte>))
    requires p.Valid()
    ensures r.0.Valid() && |r.1| == |turns|
  {
    if turns == [] then (p, [])
    else
      var (q, replies) := Conversation(p, turns[..|turns| - 1]);
      var (r, reply) := Fetched(q, turns[|turns| - 1]);
      (r, replies + [reply])
  }

  function Values(turns: seq<Patient>): (r: seq<Byte>)
    ensures |r| == |turns|
  {
    seq(|turns|, i requires 0 <= i < |turns| => turns[i].value)
  }

  /** The reply to a turn is what the port answers after the turns before it; later turns do not change it. */
  lemma {:induction false} ReplyAt(p: Port, turns: seq<Patient>, i: nat)
    requires p.Valid() && i < |turns|
    ensures Conversation(p, turns).1[i] == Fetched(Conversation(p, turns[..i]).0, turns[i]).1
  {
    var m := |turns| - 1;
    if i < m {
      ReplyAt(p, turns[..m], i);
      EarlierTurns(turns, i, m);
    }
  }

  lemma EarlierTurns(turns: seq<Patient>, i: nat, m: nat)
    requires i < m <= |turns|
    ensures turns[..m][..i] == turns[..i] && turns[..m][i] == turns[i]
  {
  }

  /** The bytes of a transaction with the card, as far as they have been sent. */
  predicate ForCard(values: seq<Byte>) { |values| > 0 ==> values[0] == ADDRESS_CARD }

  predicate Commands(values: seq<Byte>, command: Byte) { ForCard(values) && (|values| > 1 ==> values[1] == command) }

  /** The memory once the card has heard these bytes. */
  function MemoryOnce(memory: seq<Byte>, got: seq<Byte>): seq<Byte>
    requires |memory| == CARD
  {
    if |got| < 138 then memory else MemoryAfter(memory, got[..137])
  }

  /** The port between two turns: nothing is waiting, and the card has heard every byte. */
  predicate Between(p: Port, got: seq<Byte>, memory: seq<Byte>) {
    && p.Valid() && Tracks(p.card, got) && ForCard(got)
    && |memory| == CARD && p.card.memory == MemoryOnce(memory, got)
    && p.present && p.wire.selected && !p.wire.secondSlot && p.wire.txCount == |got|
    && p.wire.rx == [] && p.wire.rxPos == 0
    && (|got| > 0 ==> p.wire.access.card && !p.wire.access.pad)
  }

  /** One more byte, as the card takes it. */
  lemma CardHears(c: Card, got: seq<Byte>, memory: seq<Byte>, v: Byte, flushed: bool)
    requires Tracks(c, got) && |got| < U16 - 1 && |memory| == CARD && c.memory == MemoryOnce(memory, got)
    ensures Tracks(Respond(c, v, flushed).0, got + [v])
    ensures Respond(c, v, flushed).0.memory == MemoryOnce(memory, got + [v])
  {
    TracksStep(c, got, v, flushed);
    MemoryChangesOnlySo(c, got, v, flushed);
    if |got| >= 137 {
      assert (got + [v])[..137] == got[..137];
      if |got| == 137 { assert got[..137] == got; }
    }
  }

  /** One turn keeps the port between turns, and fetches the card's answer. */
  lemma TurnAnswers(p: Port, got: seq<Byte>, memory: seq<Byte>, t: Patient)
    requires Between(p, got, memory) && ForCard(got + [t.value]) && |got| < 255
    ensures Between(Fetched(p, t).0, got + [t.value], memory)
    ensures Fetched(p, t).1 == Respond(p.card, t.value, t.world.flushed).1
  {
    CardHears(p.card, got, memory, t.value, t.world.flushed);
    assert Reaches(p, t.value, t.world);
  }

  lemma {:induction false} ConversationBetween(p: Port, turns: seq<Patient>)
    requires Between(p, [], p.card.memory) && ForCard(Values(turns)) && |turns| <= 255
    ensures Between(Conversation(p, turns).0, Values(turns), p.card.memory)
  {
    if turns != [] {
      var m := |turns| - 1;
      ConversationBetween(p, turns[..m]);
      assert Values(turns) == Values(turns[..m]) + [turns[m].value];
      TurnAnswers(Conversation(p, turns[..m]).0, Values(turns[..m]), p.card.memory, turns[m]);
    }
  }

  /** The reply to a turn is the card's answer after the bytes before it. */
  lemma ReplyOfCard(p: Port, turns: seq<Patient>, i: nat)
    requires Between(p, [], p.card.memory) && i < |turns| && i < 255 && ForCard(Values(turns))
    ensures var c, t := Conversation(p, turns[..i]).0.card, turns[i];
            && Tracks(c, Values(turns)[..i]) && c.memory == MemoryOnce(p.card.memory, Values(turns)[..i])
            && Conversation(p, turns).1[i] == Respond(c, t.value, t.world.flushed).1
  {
    SentSoFar(turns, i);
    ConversationBetween(p, turns[..i]);
    ReplyAt(p, turns, i);
    TurnAnswers(Conversation(p, turns[..i]).0, Values(turns[..i]), p.card.memory, turns[i]);
  }

  lemma SentSoFar(turns: seq<Patient>, i: nat)
    requires i < |turns| && ForCard(Values(turns))
    ensures Values(turns[..i]) == Values(turns)[..i] && ForCard(Values(turns[..i]) + [turns[i].value])
  {
  }

  /** The card acknowledges every byte of a read of 140 bytes, or of a write of 138, but the last: exactly then the
      countdown to the interrupt starts. */
  lemma LastByteNotAcknowledged(p: Port, got: seq<Byte>, memory: seq<Byte>, t: Patient, command: Byte)
    requires Between(p, got, memory) && Commands(got + [t.value], command) && |got| < 255
    requires command == 0x52 || command == 0x57
    ensures Transmitted(p, t.value, t.world).signal.countdown
            == if |got| < (if command == 0x52 then 139 else 137) then p.signal.ByteCycles() else p.signal.countdown
  {
    CardHears(p.card, got, memory, t.value, t.world.flushed);
    CommandHeard(p.card, got, t.value, t.world.flushed, command);
    assert Reaches(p, t.value, t.world);
  }

  lemma CommandHeard(c: Card, got: seq<Byte>, v: Byte, flushed: bool, command: Byte)
    requires Tracks(c, got) && |got| < U16 - 1 && Commands(got + [v], command)
    ensures var d := Respond(c, v, flushed).0;
            d.regs.pos == |got| + 1 && (|got| >= 1 ==> d.regs.command == command)
  {
    TracksStep(c, got, v, flushed);
  }

  // ---- Reads ----
  // ---- Reads ----

  /** The card's own answer to one byte of a read. */
  lemma ReadAnswers(c: Card, got: seq<Byte>, v: Byte, flushed: bool)
    requires Tracks(c, got) && 10 <= |got| < 140 && got[1] == 0x52
    ensures Respond(c, v, flushed).1 == ReadReplyFor(SectorBytes(c.memory, SectorNumber(got)), got[4..6], |got|)
  {
    var bytes := SectorBytes(c.memory, SectorNumber(got));
    assert bytes[..128] == bytes;
  }

  /** Replies 10 to 139 of a read are the sector's bytes, their checksum and the success byte. */
  lemma ReadFetchesSector(p: Port, turns: seq<Patient>, i: nat)
    requires Between(p, [], p.card.memory) && 10 <= i < 140 && i < |turns| && Commands(Values(turns), 0x52)
    ensures var ask := Values(turns);
            Conversation(p, turns).1[i]
            == ReadReplyFor(SectorBytes(p.card.memory, SectorNumber(ask)), ask[4..6], i)
  {
    ReplyOfCard(p, turns, i);
    ReadAnswers(Conversation(p, turns[..i]).0.card, Values(turns)[..i], turns[i].value, turns[i].world.flushed);
    SameHead(Values(turns), i);
    assert i >= 138 ==> !CompletesWrite(Values(turns)[..i][..137]);
  }

  lemma SameHead(ask: seq<Byte>, i: nat)
    requires 6 <= i <= |ask|
    ensures SectorNumber(ask[..i]) == SectorNumber(ask) && ask[..i][4..6] == ask[4..6]
  {
  }

  // ---- Writes ----

  /** A write through the port: memory changes exactly if the 137 bytes before the last are a good write, and the
      last reply says whether it was good and reached its file. */
  lemma WriteStoresSector(p: Port, turns: seq<Patient>)
    requires Between(p, [], p.card.memory) && 138 <= |turns| <= 255 && Commands(Values(turns), 0x57)
    ensures var (q, replies) := Conversation(p, turns);
            var good := CompletesWrite(Values(turns)[..137]);
            && q.card.memory
               == (if good then Spliced(p.card.memory, SectorNumber(Values(turns)), WriteData(Values(turns)))
                   else p.card.memory)
            && replies[137] == if good && turns[137].world.flushed then 0x47 else 0x4E
  {
    ConversationBetween(p, turns);
    SameWrite(Values(turns));
    ReplyOfCard(p, turns, 137);
    LastAnswer(Conversation(p, turns[..137]).0.card, Values(turns)[..137], turns[137].value, turns[137].world.flushed);
  }

  lemma SameWrite(sent: seq<Byte>)
    requires |sent| >= 137
    ensures SectorNumber(sent[..137]) == SectorNumber(sent) && WriteData(sent[..137]) == WriteData(sent)
  {
  }

  lemma LastAnswer(c: Card, got: seq<Byte>, v: Byte, flushed: bool)
    requires Tracks(c, got) && |got| == 137 && got[1] == 0x57
    ensures Respond(c, v, flushed).1 == if CompletesWrite(got) && flushed then 0x47 else 0x4E
  {
    MemoryChangesOnlySo(c, got, v, flushed);
  }

  /** A good write with one byte of its sector number, data or checksum corrupted on the way is refused: the card
      answers 0x4E and keeps its memory. */
  lemma CorruptedWriteRefused(p: Port, sent: seq<Byte>, turns: seq<Patient>, i: nat, v: Byte)
    requires Between(p, [], p.card.memory) && 138 <= |turns| <= 255 && Commands(Values(turns), 0x57)
    requires |sent| == 137 && CompletesWrite(sent) && 4 <= i <= 134 && v != sent[i]
    requires Values(turns)[..137] == sent[i := v]
    ensures Conversation(p, turns).0.card.memory == p.card.memory && Conversation(p, turns).1[137] == 0x4E
  {
    CorruptedWrite(sent, i, v);
    WriteStoresSector(p, turns);
  }

  // ---- From any run ----

  /** Selecting the first slot of an idle port begins a transaction. */
  lemma SelectBegins(p: Port, got: seq<Byte>, written: Control)
    requires Good(p, got) && !p.wire.selected && p.present
    requires written.select && !written.reset && !written.secondSlot
    ensures var q := Controlled(p, written); Between(q, [], q.card.memory) && q.card.memory == p.card.memory
  {
  }

  /** After any run that leaves the port deselected with a card present, a program that selects the first slot and
      reads a sector byte by byte fetches what the last completed write put there, or what was there at first. */
  lemma ReadFetchesLastWrite(p: Port, got: seq<Byte>, ops: seq<Op>, written: Control, turns: seq<Patient>, i: nat)
    requires Good(p, got) && !Run(p, got, ops).0.wire.selected && Run(p, got, ops).0.present
    requires written.select && !written.reset && !written.secondSlot
    requires 10 <= i < 140 && i < |turns| && Commands(Values(turns), 0x52) && SectorNumber(Values(turns)) < SECTORS
    ensures var q, ask := Controlled(Run(p, got, ops).0, written), Values(turns);
            Conversation(q, turns).1[i]
            == ReadReplyFor(Latest(p.card.memory, Writes(p, got, ops), SectorNumber(ask)), ask[4..6], i)
  {
    var (idle, heard) := Run(p, got, ops);
    SelectBegins(idle, heard, written);
    MemoryIsLastWrite(p, got, ops, SectorNumber(Values(turns)));
    ReadFetchesSector(Controlled(idle, written), turns, i);
  }
}
