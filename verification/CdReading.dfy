/** Reading on the CD-ROM controller: sectors go on coming, in order and without a gap, however long
    acknowledges are delayed, until a command stops or moves the head.
 */
module CdReading {
  import opened CdProtocol
  import opened CdRuns
  import opened Words
  import Arith

  /** Events that will deliver a sector or lead to one. */
  function Chain(q: seq<CdEvent>): nat {
    if q == [] then 0 else (if q[0].phase == Phase.ReadData || q[0].phase == Sector then 1 else 0) + Chain(q[1..])
  }

  lemma {:induction false} ChainAppend(q: seq<CdEvent>, r: seq<CdEvent>)
    ensures Chain(q + r) == Chain(q) + Chain(r)
  {
    if q == [] {
      assert q + r == r;
    } else {
      ChainAppend(q[1..], r);
      assert (q + r)[1..] == q[1..] + r;
    }
  }

  predicate Ends(e: CdEvent) {
    e.phase == InitDone || e.phase == SeekDone || e.phase == ReadTocDone || e.phase == PauseDone
  }

  /** Commands that leave the motor, the head and the event chain alone. */
  predicate KeepsReading(cmd: Byte) {
    && !TakesPosition(cmd) && !ClearsQueue(cmd)
    && cmd != 0x08 && cmd != 0x15 && cmd != 0x16 && cmd != 0x1E
  }

  /** The event belongs to a command whose second response idles the drive. */
  predicate LeadsToEnd(e: CdEvent) {
    || Ends(e) || e.phase == InitAck || e.phase == SeekAck || e.phase == ReadTocAck || e.phase == PauseAck
  }

  predicate NoEndAhead(q: seq<CdEvent>) { forall k :: 0 <= k < |q| ==> !LeadsToEnd(q[k]) }

  /** The input is an event, a register access, or a command that leaves reading alone. */
  predicate Quiet(d: Drive, i: Input) {
    Executed(d, i).Some? ==> KeepsReading(Executed(d, i).value.1)
  }

  ghost predicate StillReading(d: Drive) {
    GoodDrive(d) && d.mech.motor == Reading && NoEndAhead(d.queue)
  }

  // ---- One input ----

  lemma MotorAfterEvent(p: Drive, disc: Disc, e: CdEvent)
    requires disc.Valid() && disc.Disc? && !Ends(e)
    ensures Perform(p, disc, e).mech.motor == p.mech.motor
  {
  }

  lemma EventKeepsReading(d: Drive, disc: Disc)
    requires disc.Valid() && disc.Disc? && StillReading(d) && d.queue != []
    ensures var r := OnEvent(d, disc).drive;
            r.mech.motor == Reading && NoEndAhead(r.queue) && Chain(r.queue) == Chain(d.queue)
  {
    var e, p := d.queue[0], d.(queue := d.queue[1..]);
    NoContinuationLost(d, disc);
    assert !LeadsToEnd(e);
    ContinuationKeepsReading(p, disc, e);
    QueueKeepsReading(d.queue, Continuation(p, disc, e));
    MotorAfterEvent(p, disc, e);
  }

  /** A sector event, or the start of a read, is followed by one sector event; the others by none. */
  lemma ContinuationKeepsReading(p: Drive, disc: Disc, e: CdEvent)
    requires disc.Disc? && p.mech.motor == Reading && !LeadsToEnd(e)
    ensures Chain(Continuation(p, disc, e)) == (if e.phase == Phase.ReadData || e.phase == Sector then 1 else 0)
    ensures NoEndAhead(Continuation(p, disc, e))
  {
  }

  lemma QueueKeepsReading(q: seq<CdEvent>, r: seq<CdEvent>)
    requires q != [] && NoEndAhead(q) && NoEndAhead(r)
    requires Chain(r) == if q[0].phase == Phase.ReadData || q[0].phase == Sector then 1 else 0
    ensures NoEndAhead(q[1..] + r) && Chain(q[1..] + r) == Chain(q)
  {
    ChainAppend(q[1..], r);
  }

  /** What a command that leaves reading alone does: its response, its acknowledge, and nothing more. */
  lemma CommandKeepsReading(d: Drive, disc: Disc, cmd: Byte, report: seq<Byte>)
    requires GoodDrive(d) && d.pending.None? && KeepsReading(cmd)
    ensures var r := Execute(d, disc, cmd, report).drive;
            && r.mech.motor == d.mech.motor
            && (r.queue == d.queue
                || exists e :: r.queue == d.queue + [e] && (e.phase == Ack || e.phase == GetIdAck))
  {
    var r := Execute(d, disc, cmd, report).drive;
    if cmd == 0x1A {
      PushedOne(d.queue, r.queue, CdEvent(3, GetIdAck, ACK_DELAY));
    } else if cmd == 0x19 {
      TestKeepsReading(d, disc);
    } else if cmd == 0x01 || cmd == 0x02 || (0x0B <= cmd <= 0x0E) || cmd == 0x10 || cmd == 0x11 || cmd == 0x13
              || cmd == 0x14 {
      PushedOne(d.queue, r.queue, CdEvent(3, Ack, ACK_DELAY));
    } else {
      PushedOne(d.queue, r.queue, CdEvent(5, Ack, ACK_DELAY));
    }
  }

  lemma TestKeepsReading(d: Drive, disc: Disc)
    ensures var r := Test(d, disc).drive;
            && r.mech.motor == d.mech.motor
            && (r.queue == d.queue || exists e :: r.queue == d.queue + [e] && (e.phase == Ack || e.phase == GetIdAck))
  {
    var r := Test(d, disc).drive;
    var sub := Param(d, 0);
    if sub == 0x20 || sub == 0x21 || sub == 0x22 || sub == 0x04 || sub == 0x05 {
      PushedOne(d.queue, r.queue, CdEvent(3, Ack, ACK_DELAY));
    } else {
      PushedOne(d.queue, r.queue, CdEvent(5, Ack, ACK_DELAY));
    }
  }

  lemma PushedOne(q: seq<CdEvent>, r: seq<CdEvent>, e: CdEvent)
    requires (e.phase == Ack || e.phase == GetIdAck) && (r == q || r == q + [e])
    ensures r == q || exists f :: r == q + [f] && (f.phase == Ack || f.phase == GetIdAck)
  {
  }

  lemma CommandKeepsChain(d: Drive, disc: Disc, cmd: Byte, report: seq<Byte>)
    requires GoodDrive(d) && d.pending.None? && KeepsReading(cmd) && NoEndAhead(d.queue)
    ensures var r := Execute(d, disc, cmd, report).drive;
            r.mech.motor == d.mech.motor && NoEndAhead(r.queue) && Chain(r.queue) == Chain(d.queue)
  {
    CommandKeepsReading(d, disc, cmd, report);
    var r := Execute(d, disc, cmd, report).drive;
    if r.queue != d.queue {
      var e :| r.queue == d.queue + [e] && (e.phase == Ack || e.phase == GetIdAck);
      ChainAppend(d.queue, [e]);
    }
  }

  /** No quiet input stops the motor, drops or duplicates the next-sector event, or moves the head. */
  lemma ReadingContinues(d: Drive, disc: Disc, i: Input)
    requires disc.Valid() && disc.Disc? && StillReading(d) && Quiet(d, i) && (i.Event? ==> d.queue != [])
    ensures var r := React(d, disc, i).drive; StillReading(r) && Chain(r.queue) == Chain(d.queue)
    ensures Entries(d, disc, i) == [] || Entries(d, disc, i) == [Delivered(d.mech.curLba)]
  {
    ReactGood(d, disc, i);
    match i
    case WriteCommand(cmd, report) =>
      if d.irqFlag == 0 { CommandKeepsChain(d, disc, cmd, report); }
    case WriteIrqFlag(v, report) =>
      var c := Cleared(d, v);
      ReleasedGood(d, v);
      if c.pending.Some? && c.irqFlag == 0 {
        CommandKeepsChain(Released(c), disc, c.pending.value.cmd, report);
      }
    case Event =>
      EventKeepsReading(d, disc);
      assert !LeadsToEnd(d.queue[0]);
    case _ =>
  }

  // ---- Whole runs ----

  ghost predicate QuietAt(s: System, disc: Disc, inputs: seq<Input>, k: nat)
    requires disc.Valid() && k < |inputs|
  {
    Quiet(Run(s, disc, inputs[..k]).drive, inputs[k])
  }

  ghost predicate AllQuiet(s: System, disc: Disc, inputs: seq<Input>)
    requires disc.Valid()
  {
    forall k :: 0 <= k < |inputs| ==> QuietAt(s, disc, inputs, k)
  }

  lemma QuietPrefix(s: System, disc: Disc, inputs: seq<Input>, m: nat)
    requires disc.Valid() && AllQuiet(s, disc, inputs) && m <= |inputs|
    ensures AllQuiet(s, disc, inputs[..m])
  {
    forall k | 0 <= k < m
      ensures QuietAt(s, disc, inputs[..m], k)
    {
      assert QuietAt(s, disc, inputs, k) && inputs[..m][..k] == inputs[..k];
    }
  }

  /** n sectors from `lba` on, one after the other. */
  function Sectors(lba: nat, n: nat): (r: seq<Entry>)
    ensures |r| == n
  {
    if n == 0 then [] else Sectors(lba, n - 1) + [Delivered((lba + n - 1) % U32)]
  }

  /** The history is `log` and n consecutive sectors, and the head stands after them. */
  predicate GrownBy(t: System, log: seq<Entry>, lba: nat, n: nat) {
    t.log == log + Sectors(lba, n) && t.drive.mech.curLba == (lba + n) % U32
  }

  lemma GrowsByOne(log: seq<Entry>, lba: nat, n: nat)
    ensures log + Sectors(lba, n) + [Delivered((lba + n) % U32)] == log + Sectors(lba, n + 1)
    ensures ((lba + n) % U32 + 1) % U32 == (lba + (n + 1)) % U32
  {
    Associate(log, Sectors(lba, n), [Delivered((lba + n) % U32)]);
    WrapsOnce(lba + n);
  }

  lemma WrapsOnce(x: nat)
    ensures (x % U32 + 1) % U32 == (x + 1) % U32
  {
    Arith.AddDivMod(x, U32, 1);
  }

  /** A run of quiet inputs, of any length and with acknowledges delayed at will: the drive is still reading
      with as many sector events as before, and the history has grown by consecutive sectors only. */
  lemma {:induction false} ReadingRuns(s: System, disc: Disc, inputs: seq<Input>)
    requires disc.Valid() && disc.Disc? && Good(s) && StillReading(s.drive) && s.drive.mech.curLba < U32
    requires AllQuiet(s, disc, inputs)
    ensures var t := Run(s, disc, inputs);
            && Good(t) && StillReading(t.drive) && Chain(t.drive.queue) == Chain(s.drive.queue)
            && exists n: nat :: GrownBy(t, s.log, s.drive.mech.curLba, n)
  {
    if inputs == [] {
      assert GrownBy(s, s.log, s.drive.mech.curLba, 0);
    } else {
      var m := |inputs| - 1;
      QuietPrefix(s, disc, inputs, m);
      ReadingRuns(s, disc, inputs[..m]);
      var u := Run(s, disc, inputs[..m]);
      var n: nat :| GrownBy(u, s.log, s.drive.mech.curLba, n);
      assert QuietAt(s, disc, inputs, m);
      StepGood(u, disc, inputs[m]);
      OneQuietStep(u, disc, inputs[m], s.log, s.drive.mech.curLba, n);
    }
  }

  lemma OneQuietStep(u: System, disc: Disc, i: Input, log: seq<Entry>, lba: nat, n: nat)
    requires disc.Valid() && disc.Disc? && Good(u) && StillReading(u.drive) && Quiet(u.drive, i)
    requires GrownBy(u, log, lba, n)
    ensures var t := Step(u, disc, i);
            && StillReading(t.drive) && Chain(t.drive.queue) == Chain(u.drive.queue)
            && exists k: nat :: GrownBy(t, log, lba, k)
  {
    var t := Step(u, disc, i);
    if i.Event? && !u.armed {
      assert GrownBy(t, log, lba, n);
    } else {
      var es := Entries(u.drive, disc, i);
      ReadingContinues(u.drive, disc, i);
      ReactGood(u.drive, disc, i);
      StepLog(u, disc, i, log, lba, n, es);
    }
  }

  lemma StepLog(u: System, disc: Disc, i: Input, log: seq<Entry>, lba: nat, n: nat, es: seq<Entry>)
    requires disc.Valid() && (!i.Event? || u.armed) && es == Entries(u.drive, disc, i)
    requires GrownBy(u, log, lba, n) && (es == [] || es == [Delivered(u.drive.mech.curLba)])
    requires ReactedWell(u.drive, i, React(u.drive, disc, i), es)
    ensures GrownBy(Step(u, disc, i), log, lba, n + |es|)
  {
    var t := Step(u, disc, i);
    HeadAfterEntry(u.drive, i, React(u.drive, disc, i), es);
    if es == [] {
      LogUnchanged(u, t, log, lba, n);
    } else {
      LogGrows(u, t, log, lba, n);
    }
  }

  lemma HeadAfterEntry(d: Drive, i: Input, r: Reaction, es: seq<Entry>)
    requires ReactedWell(d, i, r, es) && (es == [] || es == [Delivered(d.mech.curLba)])
    ensures r.drive.mech.curLba == if es == [] then d.mech.curLba else (d.mech.curLba + 1) % U32
  {
  }

  lemma LogUnchanged(u: System, t: System, log: seq<Entry>, lba: nat, n: nat)
    requires GrownBy(u, log, lba, n) && t.log == u.log + [] && t.drive.mech.curLba == u.drive.mech.curLba
    ensures GrownBy(t, log, lba, n)
  {
    assert u.log + [] == u.log;
  }

  lemma LogGrows(u: System, t: System, log: seq<Entry>, lba: nat, n: nat)
    requires GrownBy(u, log, lba, n) && t.log == u.log + [Delivered(u.drive.mech.curLba)]
    requires t.drive.mech.curLba == (u.drive.mech.curLba + 1) % U32
    ensures GrownBy(t, log, lba, n + 1)
  {
    GrowsByOne(log, lba, n);
  }
}
