/** Where the CD-ROM controller reads: a program that names a sector by its time on the disc gets that sector, whatever
    else goes on between its commands.
 */
module CdAddressing {
  import opened CdProtocol
  import opened CdRuns
  import opened Arith
  import opened Words

  const LEAD_IN := 150

  /** Addresses whose time on the disc has two digits for the minutes. */
  const ADDRESSES := 100 * 60 * 75

  function ToBcd(v: nat): Byte
    requires v < 100
  {
    v / 10 * 16 + v % 10
  }

  /** The time on the disc of a sector: minutes, seconds and frames in decimal digits. */
  function ToMsf(lba: nat): Msf
    requires lba + LEAD_IN < ADDRESSES
  {
    var t := lba + LEAD_IN;
    Msf(ToBcd(t / 75 / 60), ToBcd(t / 75 % 60), ToBcd(t % 75))
  }

  lemma BcdRoundTrip(v: nat)
    requires v < 100
    ensures FromBcd(ToBcd(v)) == v
  {
    var high, low := v / 10, v % 10;
    assert (high * 16 + low) / 16 == high && (high * 16 + low) % 16 == low;
  }

  lemma MsfRoundTrip(lba: nat)
    requires lba + LEAD_IN < ADDRESSES
    ensures MsfToLba(ToMsf(lba)) == lba
  {
    var t := lba + LEAD_IN;
    var m, s, f := t / 75 / 60, t / 75 % 60, t % 75;
    BcdRoundTrip(m);
    BcdRoundTrip(s);
    BcdRoundTrip(f);
    TimeParts(t);
    LbaOfTime(ToMsf(lba), t);
  }

  lemma LbaOfTime(time: Msf, t: nat)
    requires (FromBcd(time.m) * 60 + FromBcd(time.s)) * 75 + FromBcd(time.f) == t && LEAD_IN <= t < U32
    ensures MsfToLba(time) == t - LEAD_IN
  {
  }

  lemma TimeParts(t: nat)
    ensures (t / 75 / 60 * 60 + t / 75 % 60) * 75 + t % 75 == t
  {
  }

  // ---- The position that a program has asked for ----

  predicate AsksFor(d: Drive, lba: nat)
    requires lba + LEAD_IN < ADDRESSES
  {
    d.mech.seekPending && d.mech.seekTarget == ToMsf(lba)
  }

  /** Nothing but another position, or a command that goes to one, makes the controller forget it. */
  predicate KeepsTarget(d: Drive, i: Input) {
    Executed(d, i).Some? ==>
      var cmd := Executed(d, i).value.1; !TakesPosition(cmd) && cmd != 0x02 && cmd != 0x15 && cmd != 0x16
  }

  lemma CommandKeepsTarget(d: Drive, disc: Disc, cmd: Byte, report: seq<Byte>)
    requires !TakesPosition(cmd) && cmd != 0x02 && cmd != 0x15 && cmd != 0x16
    ensures var m := Execute(d, disc, cmd, report).drive.mech;
            m.seekPending == d.mech.seekPending && m.seekTarget == d.mech.seekTarget
  {
  }

  lemma DeliveryKeepsTarget(p: Drive, disc: Disc)
    requires disc.Valid()
    ensures var m := DeliverSector(p, disc).mech;
            m.seekPending == p.mech.seekPending && m.seekTarget == p.mech.seekTarget
  {
  }

  lemma EventKeepsTarget(d: Drive, disc: Disc)
    requires disc.Valid()
    ensures var m := OnEvent(d, disc).drive.mech;
            m.seekPending == d.mech.seekPending && m.seekTarget == d.mech.seekTarget
  {
    if d.queue != [] && d.queue[0].phase == Sector {
      DeliveryKeepsTarget(d.(queue := d.queue[1..]), disc);
    }
  }

  lemma TargetStays(d: Drive, disc: Disc, i: Input, lba: nat)
    requires disc.Valid() && lba + LEAD_IN < ADDRESSES && AsksFor(d, lba) && KeepsTarget(d, i)
    ensures AsksFor(React(d, disc, i).drive, lba)
  {
    match i
    case WriteCommand(cmd, report) =>
      if d.irqFlag == 0 { CommandKeepsTarget(d, disc, cmd, report); }
    case WriteIrqFlag(v, report) =>
      var c := Cleared(d, v);
      if c.pending.Some? && c.irqFlag == 0 {
        CommandKeepsTarget(Released(c), disc, c.pending.value.cmd, report);
      }
    case Event => EventKeepsTarget(d, disc);
    case _ =>
  }

  ghost predicate AllKeepTarget(s: System, disc: Disc, inputs: seq<Input>)
    requires disc.Valid()
  {
    forall k :: 0 <= k < |inputs| ==> KeepsTarget(Run(s, disc, inputs[..k]).drive, inputs[k])
  }

  lemma {:induction false} TargetKept(s: System, disc: Disc, inputs: seq<Input>, lba: nat)
    requires disc.Valid() && lba + LEAD_IN < ADDRESSES && AsksFor(s.drive, lba) && AllKeepTarget(s, disc, inputs)
    ensures AsksFor(Run(s, disc, inputs).drive, lba)
  {
    if inputs != [] {
      var n := |inputs| - 1;
      assert forall k :: 0 <= k < n ==> inputs[..n][..k] == inputs[..k];
      TargetKept(s, disc, inputs[..n], lba);
      TargetStays(Run(s, disc, inputs[..n]).drive, disc, inputs[n], lba);
    }
  }

  /** The bytes of a position, and the command that takes it, written while nothing is unacknowledged. */
  function Asking(lba: nat, report: seq<Byte>): seq<Input>
    requires lba + LEAD_IN < ADDRESSES
  {
    var t := ToMsf(lba);
    [WriteParam(t.m), WriteParam(t.s), WriteParam(t.f), WriteCommand(0x02, report)]
  }

  lemma ParamWritten(s: System, disc: Disc, v: Byte)
    requires disc.Valid() && |s.drive.io.param| < FIFO_SIZE
    ensures Step(s, disc, WriteParam(v)) == s.(drive := WithParams(s.drive, s.drive.io.param + [v]))
  {
    assert s.log + [] == s.log;
  }

  lemma LocationSet(s: System, disc: Disc, lba: nat, report: seq<Byte>)
    requires disc.Valid() && lba + LEAD_IN < ADDRESSES && s.drive.irqFlag == 0
    requires s.drive.io.param == [ToMsf(lba).m, ToMsf(lba).s, ToMsf(lba).f]
    ensures var t := Step(s, disc, WriteCommand(0x02, report));
            AsksFor(t.drive, lba) && t.drive.io.param == [] && t.drive.irqFlag == 0 && t.log == s.log
  {
    assert s.log + [] == s.log;
  }

  lemma PositionAsked(s: System, disc: Disc, lba: nat, report: seq<Byte>)
    requires disc.Valid() && lba + LEAD_IN < ADDRESSES && s.drive.irqFlag == 0 && s.drive.io.param == []
    ensures var t := Run(s, disc, Asking(lba, report));
            AsksFor(t.drive, lba) && t.drive.io.param == [] && t.drive.irqFlag == 0 && t.log == s.log
  {
    var m := ToMsf(lba);
    var i, j, k, c := WriteParam(m.m), WriteParam(m.s), WriteParam(m.f), WriteCommand(0x02, report);
    var s1 := s.(drive := WithParams(s.drive, [m.m]));
    var s2 := s.(drive := WithParams(s.drive, [m.m, m.s]));
    var s3 := s.(drive := WithParams(s.drive, [m.m, m.s, m.f]));
    ParamWritten(s, disc, m.m);
    ParamWritten(s1, disc, m.s);
    ParamWritten(s2, disc, m.f);
    FourInputs(s, disc, i, j, k, c);
    LocationSet(s3, disc, lba, report);
  }

  lemma FourInputs(s: System, disc: Disc, i: Input, j: Input, k: Input, l: Input)
    requires disc.Valid()
    ensures Run(s, disc, [i, j, k, l]) == Step(Step(Step(Step(s, disc, i), disc, j), disc, k), disc, l)
  {
    OneInputMore(s, disc, [], i);
    OneInputMore(s, disc, [i], j);
    OneInputMore(s, disc, [i, j], k);
    OneInputMore(s, disc, [i, j, k], l);
    assert [] + [i] == [i] && [i] + [j] == [i, j] && [i, j] + [k] == [i, j, k] && [i, j, k] + [l] == [i, j, k, l];
  }

  /** A command that goes to the position, executed at once or released later, moves the head there. */
  lemma HeadMoves(u: System, disc: Disc, i: Input, lba: nat)
    requires disc.Valid() && Good(u) && lba + LEAD_IN < ADDRESSES && AsksFor(u.drive, lba)
    requires Executed(u.drive, i).Some? && TakesPosition(Executed(u.drive, i).value.1)
    ensures Step(u, disc, i).log == u.log + [Moved(lba)] && Step(u, disc, i).drive.mech.curLba == lba
  {
    MsfRoundTrip(lba);
    StepGood(u, disc, i);
    assert Entries(u.drive, disc, i) == [Moved(lba)];
    assert Step(u, disc, i).log[|u.log|] == Moved(lba);
  }

  lemma {:induction false} LogGrows(s: System, disc: Disc, inputs: seq<Input>)
    requires disc.Valid()
    ensures s.log <= Run(s, disc, inputs).log
  {
    if inputs != [] {
      LogGrows(s, disc, inputs[..|inputs| - 1]);
    }
  }

  /** A program writes a position, does whatever it likes that asks for no other, and reads or plays: the head moves to
      that sector, and if a sector is delivered before the head is moved again, the first one is that sector. */
  lemma ReadsWhatWasAsked(s: System, disc: Disc, lba: nat, report: seq<Byte>, between: seq<Input>, i: Input,
                          later: seq<Input>)
    requires disc.Valid() && Good(s) && s.drive.irqFlag == 0 && s.drive.io.param == []
    requires lba + LEAD_IN < ADDRESSES
    requires AllKeepTarget(Run(s, disc, Asking(lba, report)), disc, between)
    requires var u := Run(Run(s, disc, Asking(lba, report)), disc, between);
             Executed(u.drive, i).Some? && TakesPosition(Executed(u.drive, i).value.1)
    ensures var u := Run(Run(s, disc, Asking(lba, report)), disc, between);
            var v := Step(u, disc, i);
            var log := Run(v, disc, later).log;
            && v.log == u.log + [Moved(lba)] <= log
            && (|log| > |v.log| && log[|v.log|].Delivered? ==> log[|v.log|] == Delivered(lba))
  {
    PositionAsked(s, disc, lba, report);
    var t := Run(s, disc, Asking(lba, report));
    RunFromGood(s, disc, Asking(lba, report));
    TargetKept(t, disc, between, lba);
    RunFromGood(t, disc, between);
    var u := Run(t, disc, between);
    HeadMoves(u, disc, i, lba);
    StepGood(u, disc, i);
    var v := Step(u, disc, i);
    LogGrows(v, disc, later);
    RunFromGood(v, disc, later);
    FirstAfterMove(Run(v, disc, later).log, u.log, lba);
  }

  lemma FirstAfterMove(log: seq<Entry>, before: seq<Entry>, lba: nat)
    requires InOrder(log) && before + [Moved(lba)] <= log
    ensures |log| > |before| + 1 && log[|before| + 1].Delivered? ==> log[|before| + 1] == Delivered(lba)
  {
    assert log[|before|] == Moved(lba);
  }

  // ---- What a delivered sector holds ----

  /** The FIFO after a delivery: the sector's 2048 bytes of user data, or in whole-sector mode all 2340 bytes after its
      sync pattern; nothing while audio plays. */
  lemma DeliveredBytes(d: Drive, disc: Disc, i: Input, k: nat)
    requires disc.Valid() && GoodDrive(d) && Entries(d, disc, i) == [Delivered(d.mech.curLba)]
    ensures var data, lba := React(d, disc, i).drive.io.data, d.mech.curLba;
            var whole := BitAt(d.mech.mode, 5);
            && |data| == (if d.mech.playingCdda then 0 else if whole then 2340 else 2048)
            && (k < |data| ==> data[k] == disc.read(lba)[k + if whole then 12 else disc.dataOffset(lba)])
  {
    DeliveryNeedsSilence(d, disc, i);
    FifthBit(d.mech.mode);
  }

  lemma FifthBit(v: nat)
    ensures BitAt(v, 5) <==> Bit(v, 0x20)
  {
    BitAtIsBit(v, 5);
    assert Pow2(5) == 32 by { assert Pow2(3) == 8; }
  }

  // ---- The status byte, and how long things take ----

  /** The status byte: disc present, reading, seeking, playing. */
  lemma StatBits(m: Mechanics, disc: Disc)
    ensures var s := Stat(m, disc);
            && (BitAt(s, 1) <==> disc.Disc?) && (BitAt(s, 5) <==> m.motor == Reading)
            && (BitAt(s, 6) <==> m.motor == Seeking) && (BitAt(s, 7) <==> m.playingCdda)
            && s < 0x100
  {
    var s := Stat(m, disc);
    BitAtIsBit(s, 1);
    BitAtIsBit(s, 5);
    BitAtIsBit(s, 6);
    BitAtIsBit(s, 7);
    SmallPowers();
  }

  /** What a disc says of itself: the status, then that it is licensed, in mode 2, and the region's letters. */
  lemma IdentityText(m: Mechanics, disc: Disc)
    requires disc.Disc?
    ensures var id := Identity(m, disc);
            && |id| == 8 && id[0] == Stat(m, disc) && id[1] == 0 && BitAt(id[2], 5) && id[3] == 0
            && id[4] as char == 'S' && id[5] as char == 'C' && id[6] as char == 'E' && id[7] as char == 'A'
  {
    BitAtIsBit(0x20, 5);
    SmallPowers();
  }

  /** A second of processor cycles is 75 sectors, or 150 at double speed. */
  lemma SectorsPerSecond(m: Mechanics)
    ensures Period(m) * (if m.doubleSpeed then 150 else 75) == CPU_HZ
  {
  }

  /** A head `distance` sectors from the target, ahead of it or behind. */
  function Away(m: Mechanics, target: nat, distance: nat): Mechanics { m.(curLba := target + distance) }

  /** Seeking takes at least 20000 cycles. Every sector of distance costs 225 cycles more once that is exceeded, and 64
      for a long seek, which costs a seventh of a second to begin with. To all of it comes a sector's time, half of it
      if the drive was reading. */
  lemma SeekGrows(m: Mechanics, target: nat, distance: nat)
    requires distance < 0x100_0000
    ensures var extra := if m.motor == Reading then Period(m) / 2 else Period(m);
            var d := SeekDelay(Away(m, target, distance), target);
            var next := SeekDelay(Away(m, target, distance + 1), target);
            && (distance == 0 ==> d == MIN_SEEK_DELAY + extra)
            && (distance + 1 < LONG_SEEK_SECTORS ==>
                  next == if d - extra == MIN_SEEK_DELAY && 225 * (distance + 1) < MIN_SEEK_DELAY then d
                          else 225 * (distance + 1) + extra)
            && (distance + 1 == LONG_SEEK_SECTORS ==> 7 * (next - extra - 64 * LONG_SEEK_SECTORS) <= CPU_HZ
                                                      < 7 * (next - extra - 64 * LONG_SEEK_SECTORS + 1))
            && (distance >= LONG_SEEK_SECTORS ==> next == d + 64)
  {
  }

  /** From the acknowledge of a read that has to seek to its first sector: the seek and one sector's time, as far as 32
      bits reach. */
  lemma FirstSectorTime(d: Drive, disc: Disc, cmd: Byte, report: seq<Byte>)
    requires disc.Valid() && GoodDrive(d) && d.pending.None? && d.queue == []
    requires TakesPosition(cmd) && d.mech.seekPending
    ensures var q := OnEvent(Execute(d, disc, cmd, report).drive, disc).drive.queue;
            var time := Period(d.mech) + SeekDelay(d.mech, MsfToLba(d.mech.seekTarget));
            |q| == 1 && q[0].phase == Sector && q[0].delay == if time < U32 then time else U32 - 1
  {
  }

  /** The direction does not matter. */
  lemma SeekEitherWay(m: Mechanics, target: nat, distance: nat)
    requires distance <= target
    ensures SeekDelay(m.(curLba := target - distance), target) == SeekDelay(Away(m, target, distance), target)
  {
  }

  // ---- Acknowledging and enabling, bit by bit ----
  // ---- Acknowledging and enabling, bit by bit ----

  lemma {:induction false} AndNotBits(a: nat, b: nat, n: nat, k: nat)
    ensures BitAt(AndNot(a, b, n), k) <==> k < n && BitAt(a, k) && !BitAt(b, k)
  {
    if n > 0 && k > 0 {
      AndNotBits(a / 2, b / 2, n - 1, k - 1);
    } else if n == 0 {
      NoBits(k);
    }
  }

  lemma {:induction false} NoBits(k: nat)
    ensures !BitAt(0, k)
  {
    if k > 0 { NoBits(k - 1); }
  }

  predicate Shared(a: nat, b: nat, k: nat) { BitAt(a, k) && BitAt(b, k) }

  lemma {:induction false} OverlapBits(a: nat, b: nat, n: nat)
    ensures Overlap(a, b, n) <==> exists k: nat :: k < n && Shared(a, b, k)
  {
    if n > 0 {
      OverlapBits(a / 2, b / 2, n - 1);
      if Overlap(a / 2, b / 2, n - 1) {
        var j: nat :| j < n - 1 && Shared(a / 2, b / 2, j);
        assert Shared(a, b, j + 1);
      }
      if a % 2 == 1 && b % 2 == 1 { assert Shared(a, b, 0); }
      forall k: nat | k < n && Shared(a, b, k)
        ensures Overlap(a, b, n)
      {
        assert k > 0 ==> Shared(a / 2, b / 2, k - 1);
      }
    }
  }
}
