/** The memory card on the serial port: a byte-by-byte protocol with a running XOR checksum.

    `Tracks` ties every register of the card to the bytes it has received since position 0; from it
    follow the exact conditions under which the card's memory changes, and what a read returns.
 */
module MemoryCard {

  import opened Arith
  import opened Words

  const SECTOR := 128
  const SECTORS := 1024
  const CARD := SECTOR * SECTORS
  const U16 := 0x1_0000
  const FLAG_NEW: Byte := 0x08

  // ---- Bytes as bit strings ----

  /** Exclusive or of the low n bits. */
  function XorBits(a: nat, b: nat, n: nat): (r: nat)
    ensures r < Pow2(n)
  {
    if n == 0 then 0 else (a % 2 + b % 2) % 2 + 2 * XorBits(a / 2, b / 2, n - 1)
  }

  /** Inclusive or of the low n bits. */
  function OrBits(a: nat, b: nat, n: nat): (r: nat)
    ensures r < Pow2(n)
  {
    if n == 0 then 0 else (if a % 2 + b % 2 > 0 then 1 else 0) + 2 * OrBits(a / 2, b / 2, n - 1)
  }

  lemma PowerOfEight()
    ensures Pow2(8) == 256
  {
    assert Pow2(4) == 16;
  }

  function Xor(a: Byte, b: Byte): Byte {
    PowerOfEight();
    XorBits(a, b, 8)
  }

  function Or(a: Byte, b: Byte): Byte {
    PowerOfEight();
    OrBits(a, b, 8)
  }

  lemma {:induction false} ZeroBits(b: nat, n: nat)
    requires b < Pow2(n)
    ensures XorBits(0, b, n) == b && OrBits(0, b, n) == b
  {
    if n > 0 {
      ZeroBits(b / 2, n - 1);
    }
  }

  lemma ZeroNeutral(b: Byte)
    ensures Xor(0, b) == b && Or(0, b) == b
  {
    PowerOfEight();
    ZeroBits(b, 8);
  }

  /** Bit by bit: exclusive or where the operands differ, inclusive or where either is set. */
  lemma {:induction false} BitsOfXorAndOr(a: nat, b: nat, n: nat, k: nat)
    requires k < n
    ensures BitAt(XorBits(a, b, n), k) <==> (BitAt(a, k) != BitAt(b, k))
    ensures BitAt(OrBits(a, b, n), k) <==> (BitAt(a, k) || BitAt(b, k))
  {
    if k > 0 {
      BitsOfXorAndOr(a / 2, b / 2, n - 1, k - 1);
    }
  }

  /** A byte is its eight bits. */
  lemma SameByte(a: Byte, b: Byte)
    requires forall k :: 0 <= k < 8 ==> (BitAt(a, k) <==> BitAt(b, k))
    ensures a == b
  {
    PowerOfEight();
    SameBits(a, b, 8);
  }

  lemma XorCommutes(a: Byte, b: Byte)
    ensures Xor(a, b) == Xor(b, a)
  {
    forall k | 0 <= k < 8
      ensures BitAt(Xor(a, b), k) <==> BitAt(Xor(b, a), k)
    {
      BitsOfXorAndOr(a, b, 8, k);
      BitsOfXorAndOr(b, a, 8, k);
    }
    SameByte(Xor(a, b), Xor(b, a));
  }

  lemma XorAssociates(a: Byte, b: Byte, c: Byte)
    ensures Xor(Xor(a, b), c) == Xor(a, Xor(b, c))
  {
    forall k | 0 <= k < 8
      ensures BitAt(Xor(Xor(a, b), c), k) <==> BitAt(Xor(a, Xor(b, c)), k)
    {
      BitsOfXorAndOr(a, b, 8, k);
      BitsOfXorAndOr(b, c, 8, k);
      BitsOfXorAndOr(Xor(a, b), c, 8, k);
      BitsOfXorAndOr(a, Xor(b, c), 8, k);
    }
    SameByte(Xor(Xor(a, b), c), Xor(a, Xor(b, c)));
  }

  /** Exclusive or with the same byte twice changes nothing. */
  lemma XorUndone(a: Byte, b: Byte)
    ensures Xor(Xor(a, b), b) == a
  {
    forall k | 0 <= k < 8
      ensures BitAt(Xor(Xor(a, b), b), k) <==> BitAt(a, k)
    {
      BitsOfXorAndOr(a, b, 8, k);
      BitsOfXorAndOr(Xor(a, b), b, 8, k);
    }
    SameByte(Xor(Xor(a, b), b), a);
  }

  /** XOR of all bytes, from the left. */
  function XorAll(bytes: seq<Byte>): Byte {
    if bytes == [] then 0 else Xor(XorAll(bytes[..|bytes| - 1]), bytes[|bytes| - 1])
  }

  lemma XorAppend(bytes: seq<Byte>, b: Byte)
    ensures XorAll(bytes + [b]) == Xor(XorAll(bytes), b)
  {
    assert (bytes + [b])[..|bytes|] == bytes;
  }

  lemma XorOne(b: Byte)
    ensures XorAll([b]) == b
  {
    ZeroNeutral(b);
    assert [b] == [] + [b];
    XorAppend([], b);
  }

  /** Bytes followed by their checksum sum to zero. */
  lemma ChecksumCloses(bytes: seq<Byte>)
    ensures XorAll(bytes + [XorAll(bytes)]) == 0
  {
    var x := XorAll(bytes);
    XorAppend(bytes, x);
    ZeroNeutral(x);
    XorUndone(0, x);
  }

  /** One changed byte always changes the checksum. */
  lemma {:induction false} ChecksumCatches(bytes: seq<Byte>, i: nat, v: Byte)
    requires i < |bytes|
    ensures XorAll(bytes[i := v]) == XorAll(bytes) <==> v == bytes[i]
  {
    var m := |bytes| - 1;
    var before, last := bytes[..m], bytes[m];
    if i < m {
      assert bytes[i := v][..m] == before[i := v];
      ChecksumCatches(before, i, v);
      XorUndone(XorAll(before), last);
      XorUndone(XorAll(before[i := v]), last);
    } else {
      assert bytes[i := v][..m] == before;
      XorCommutes(XorAll(before), last);
      XorCommutes(XorAll(before), v);
      XorUndone(last, XorAll(before));
      XorUndone(v, XorAll(before));
    }
  }

  // ---- The card ----

  datatype Registers = Registers(pos: nat, command: Byte, sector: nat, checksum: Byte, received: Byte,
                                 writeValid: bool)

  datatype Card = Card(memory: seq<Byte>, isNew: bool, staged: seq<Byte>, regs: Registers)
  {
    predicate Valid() {
      |memory| == CARD && |staged| == SECTOR && regs.sector < U16 && regs.pos < U16
    }
  }

  function SectorBytes(memory: seq<Byte>, sector: nat): (r: seq<Byte>)
    requires |memory| == CARD
    ensures |r| == SECTOR
  {
    var offset := sector % SECTORS * SECTOR;
    memory[offset..offset + SECTOR]
  }

  function Spliced(memory: seq<Byte>, sector: nat, bytes: seq<Byte>): (r: seq<Byte>)
    requires |memory| == CARD && |bytes| == SECTOR
    ensures |r| == CARD
  {
    var offset := sector % SECTORS * SECTOR;
    memory[..offset] + bytes + memory[offset + SECTOR..]
  }

  // ---- The card's reply to one byte, by position ----

  /** Positions 0 to 5: the registers and the reply. */
  function Header(r: Registers, pos: nat, isNew: bool, v: Byte): (Registers, Byte)
    requires pos < 6 && r.sector < U16
  {
    if pos == 0 then (r, 0xFF)
    else if pos == 1 then (r.(command := v), if isNew then FLAG_NEW else 0)
    else if pos == 2 then (r, 0x5A)
    else if pos == 3 then (r, 0x5D)
    else if pos == 4 then
      var high: int := v;
      (r.(sector := high * 256, checksum := v), 0)
    else
      var s := r.sector / 256 * 256 + Or(r.sector % 256, v);
      (r.(sector := s, checksum := Xor(r.checksum, v)), s / 256)
  }

  function ReadReply(c: Card, pos: nat): (Card, Byte)
    requires c.Valid() && 6 <= pos
  {
    var r := c.regs;
    if pos == 6 then (c, 0x5C)
    else if pos == 7 then (c, 0x5D)
    else if pos == 8 then (c, r.sector / 256)
    else if pos == 9 then (c, r.sector % 256)
    else if pos < 138 then
      var b := SectorBytes(c.memory, r.sector)[pos - 10];
      (c.(regs := r.(checksum := Xor(r.checksum, b))), b)
    else if pos == 138 then (c, r.checksum)
    else if pos == 139 then (c.(isNew := false), 0x47)
    else (c, 0xFF)
  }

  /** `flushed` is whether the card image reached its file; it decides the reply, not the memory. */
  function WriteReply(c: Card, pos: nat, v: Byte, flushed: bool): (Card, Byte)
    requires c.Valid() && 6 <= pos
  {
    var r := c.regs;
    if pos < 134 then
      (c.(staged := c.staged[pos - 6 := v], regs := r.(checksum := Xor(r.checksum, v))),
       if pos == 6 then r.sector % 256 else c.staged[pos - 7])
    else if pos == 134 then
      (c.(regs := r.(received := v, writeValid := v == r.checksum && r.sector < SECTORS)), c.staged[127])
    else if pos == 135 then (c, 0x5C)
    else if pos == 136 then (c, 0x5D)
    else if pos == 137 && r.writeValid then
      (c.(memory := Spliced(c.memory, r.sector, c.staged), isNew := false), if flushed then 0x47 else 0x4E)
    else if pos == 137 then (c, 0x4E)
    else (c, 0xFF)
  }

  function Respond(c: Card, v: Byte, flushed: bool): (Card, Byte)
    requires c.Valid()
  {
    var pos := c.regs.pos;
    var n := c.(regs := c.regs.(pos := (pos + 1) % U16));
    if pos < 6 then
      var (r, reply) := Header(n.regs, pos, c.isNew, v);
      (n.(regs := r), reply)
    else if c.regs.command == 0x52 then ReadReply(n, pos)
    else if c.regs.command == 0x57 then WriteReply(n, pos, v, flushed)
    else (n, 0xFF)
  }

  // ---- What the registers stand for ----

  function SectorNumber(got: seq<Byte>): nat
    requires |got| >= 6
  {
    var high: int := got[4];
    high * 256 + got[5]
  }

  /** The bytes a write carries. */
  function WriteData(got: seq<Byte>): seq<Byte>
    requires |got| >= 134
  {
    got[6..134]
  }

  predicate ChecksumGood(got: seq<Byte>)
    requires |got| >= 135
  {
    got[134] == XorAll(got[4..134])
  }

  predicate HeaderTracks(r: Registers, got: seq<Byte>) {
    && (|got| >= 2 ==> r.command == got[1])
    && (|got| == 5 ==> (var high: int := got[4]; r.sector == high * 256) && r.checksum == got[4])
    && (|got| >= 6 ==> r.sector == SectorNumber(got))
  }

  /** What a read's checksum amounts to before position `pos`: the two sector bytes and the data sent so far. */
  function ReadChecksum(bytes: seq<Byte>, head: seq<Byte>, pos: nat): Byte
    requires |bytes| == SECTOR
  {
    XorAll(head + bytes[..if pos < 10 then 0 else Min(pos - 10, SECTOR)])
  }

  predicate ReadTracks(checksum: Byte, bytes: seq<Byte>, got: seq<Byte>)
    requires |bytes| == SECTOR && |got| >= 6
  {
    checksum == ReadChecksum(bytes, got[4..6], |got|)
  }

  predicate WriteTracks(checksum: Byte, staged: seq<Byte>, writeValid: bool, got: seq<Byte>)
    requires |staged| == SECTOR && |got| >= 6
  {
    var m := Min(|got|, 134);
    && checksum == XorAll(got[4..m])
    && staged[..m - 6] == got[6..m]
    && (|got| >= 135 ==> writeValid == (ChecksumGood(got) && SectorNumber(got) < SECTORS))
  }

  /** got: the bytes received since position 0. */
  predicate Tracks(c: Card, got: seq<Byte>) {
    && c.Valid() && |got| == c.regs.pos && HeaderTracks(c.regs, got)
    && (|got| >= 6 && c.regs.command == 0x52 ==>
          ReadTracks(c.regs.checksum, SectorBytes(c.memory, c.regs.sector), got))
    && (|got| >= 6 && c.regs.command == 0x57 ==>
          WriteTracks(c.regs.checksum, c.staged, c.regs.writeValid, got))
  }

  /** The history after one more byte: position 65535 wraps round to a fresh start. */
  function Heard(got: seq<Byte>, v: Byte): seq<Byte> { if |got| == U16 - 1 then [] else got + [v] }

  lemma SectorLowByte(r: Registers, got: seq<Byte>, isNew: bool, v: Byte)
    requires r.sector < U16 && |got| == 5 && HeaderTracks(r, got)
    ensures HeaderTracks(Header(r, 5, isNew, v).0, got + [v])
  {
    ZeroNeutral(v);
    var high: int := got[4];
    assert r.sector % 256 == 0 && r.sector / 256 == high;
    assert Or(0, v) == v;
    assert SectorNumber(got + [v]) == high * 256 + v;
  }

  lemma SectorChecksum(r: Registers, got: seq<Byte>, isNew: bool, v: Byte)
    requires r.sector < U16 && |got| == 5 && HeaderTracks(r, got)
    ensures Header(r, 5, isNew, v).0.checksum == XorAll((got + [v])[4..6])
  {
    XorOne(got[4]);
    XorAppend([got[4]], v);
    assert (got + [v])[4..6] == [got[4]] + [v];
  }

  lemma HeaderStep(r: Registers, got: seq<Byte>, isNew: bool, v: Byte)
    requires r.sector < U16 && |got| < 6 && HeaderTracks(r, got)
    ensures HeaderTracks(Header(r, |got|, isNew, v).0, got + [v]) && Header(r, |got|, isNew, v).0.pos == r.pos
    ensures |got| == 5 ==> Header(r, |got|, isNew, v).0.checksum == XorAll((got + [v])[4..6])
  {
    if |got| == 5 {
      SectorLowByte(r, got, isNew, v);
      SectorChecksum(r, got, isNew, v);
    }
  }

  lemma {:induction false} ChecksumGrows(bytes: seq<Byte>, head: seq<Byte>, pos: nat)
    requires |bytes| == SECTOR && 6 <= pos
    ensures ReadChecksum(bytes, head, pos + 1)
            == if 10 <= pos < 138 then Xor(ReadChecksum(bytes, head, pos), bytes[pos - 10])
               else ReadChecksum(bytes, head, pos)
  {
    if 10 <= pos < 138 {
      var k := pos - 10;
      assert head + bytes[..k + 1] == (head + bytes[..k]) + [bytes[k]];
      XorAppend(head + bytes[..k], bytes[k]);
    }
  }

  lemma ReadStep(checksum: Byte, bytes: seq<Byte>, got: seq<Byte>, v: Byte)
    requires |bytes| == SECTOR && |got| >= 6 && ReadTracks(checksum, bytes, got)
    ensures ReadTracks(if 10 <= |got| < 138 then Xor(checksum, bytes[|got| - 10]) else checksum, bytes, got + [v])
  {
    ChecksumGrows(bytes, got[4..6], |got|);
    assert (got + [v])[4..6] == got[4..6];
  }

  lemma StagedStep(checksum: Byte, staged: seq<Byte>, valid: bool, got: seq<Byte>, v: Byte)
    requires |staged| == SECTOR && 6 <= |got| < 134 && WriteTracks(checksum, staged, valid, got)
    ensures WriteTracks(Xor(checksum, v), staged[|got| - 6 := v], valid, got + [v])
  {
    var h := got + [v];
    XorAppend(got[4..|got|], v);
    assert h[4..|h|] == got[4..|got|] + [v];
    assert staged[|got| - 6 := v][..|h| - 6] == staged[..|got| - 6] + [v];
    assert h[6..|h|] == got[6..|got|] + [v];
  }

  lemma AfterStagedStep(checksum: Byte, staged: seq<Byte>, valid: bool, got: seq<Byte>, v: Byte)
    requires |staged| == SECTOR && |got| >= 134 && WriteTracks(checksum, staged, valid, got)
    ensures WriteTracks(checksum, staged,
                        if |got| == 134 then v == checksum && SectorNumber(got) < SECTORS else valid, got + [v])
  {
    var h := got + [v];
    assert h[4..134] == got[4..134] && h[6..134] == got[6..134];
  }

  lemma HeaderByteTracks(c: Card, got: seq<Byte>, v: Byte, flushed: bool)
    requires Tracks(c, got) && |got| < 6
    ensures Tracks(Respond(c, v, flushed).0, got + [v])
  {
    var n, h := c.(regs := c.regs.(pos := |got| + 1)), got + [v];
    HeaderStep(n.regs, got, c.isNew, v);
    if |h| == 6 {
      var d := Respond(c, v, flushed).0;
      assert d == n.(regs := Header(n.regs, 5, c.isNew, v).0);
      assert h[4..6] + SectorBytes(d.memory, d.regs.sector)[..0] == h[4..6];
    }
  }

  lemma ReadByteTracks(c: Card, got: seq<Byte>, v: Byte, flushed: bool)
    requires Tracks(c, got) && 6 <= |got| < U16 - 1 && c.regs.command == 0x52
    ensures Tracks(Respond(c, v, flushed).0, got + [v])
  {
    assert SectorNumber(got + [v]) == SectorNumber(got);
    ReadStep(c.regs.checksum, SectorBytes(c.memory, c.regs.sector), got, v);
  }

  lemma WriteByteTracks(c: Card, got: seq<Byte>, v: Byte, flushed: bool)
    requires Tracks(c, got) && 6 <= |got| < U16 - 1 && c.regs.command == 0x57
    ensures Tracks(Respond(c, v, flushed).0, got + [v])
  {
    assert SectorNumber(got + [v]) == SectorNumber(got);
    if |got| < 134 {
      StagedStep(c.regs.checksum, c.staged, c.regs.writeValid, got, v);
    } else {
      AfterStagedStep(c.regs.checksum, c.staged, c.regs.writeValid, got, v);
    }
  }

  /** Every byte keeps the registers in step with the history. */
  lemma TracksStep(c: Card, got: seq<Byte>, v: Byte, flushed: bool)
    requires Tracks(c, got)
    ensures Tracks(Respond(c, v, flushed).0, Heard(got, v))
  {
    if |got| < 6 {
      HeaderByteTracks(c, got, v, flushed);
    } else if |got| < U16 - 1 {
      assert SectorNumber(got + [v]) == SectorNumber(got);
      if c.regs.command == 0x52 {
        ReadByteTracks(c, got, v, flushed);
      } else if c.regs.command == 0x57 {
        WriteByteTracks(c, got, v, flushed);
      }
    }
  }

  // ---- When the memory changes ----

  /** Position 137 of a write whose checksum byte equals the XOR of the two sector bytes and all 128 data
      bytes, for a sector that exists. */
  predicate CompletesWrite(got: seq<Byte>) {
    |got| == 137 && got[1] == 0x57 && ChecksumGood(got) && SectorNumber(got) < SECTORS
  }

  /** A good write with any one byte of sector number, data or checksum changed is no good. */
  lemma CorruptedWrite(got: seq<Byte>, i: nat, v: Byte)
    requires CompletesWrite(got) && 4 <= i <= 134 && v != got[i]
    ensures !CompletesWrite(got[i := v])
  {
    var bad := got[i := v];
    if i < 134 {
      assert bad[4..134] == got[4..134][i - 4 := v];
      ChecksumCatches(got[4..134], i - 4, v);
    } else {
      assert bad[4..134] == got[4..134];
    }
  }

  /** The memory after a history of bytes is fixed by the history alone. */
  function MemoryAfter(memory: seq<Byte>, got: seq<Byte>): (r: seq<Byte>)
    requires |memory| == CARD
    ensures |r| == CARD
  {
    if CompletesWrite(got) then Spliced(memory, SectorNumber(got), WriteData(got)) else memory
  }

  /** Exactly when the memory changes and to what; the reply says whether it reached the file. */
  lemma MemoryChangesOnlySo(c: Card, got: seq<Byte>, v: Byte, flushed: bool)
    requires Tracks(c, got)
    ensures var r := Respond(c, v, flushed);
            && r.0.memory == MemoryAfter(c.memory, got)
            && (CompletesWrite(got) ==> !r.0.isNew && r.1 == (if flushed then 0x47 else 0x4E))
            && (|got| == 137 && got[1] == 0x57 && !CompletesWrite(got) ==> r.1 == 0x4E)
  {
    if |got| == 137 && c.regs.command == 0x57 {
      assert c.staged == c.staged[..128];
    }
  }

  lemma SplicedAt(memory: seq<Byte>, sector: nat, bytes: seq<Byte>, other: nat, k: nat)
    requires |memory| == CARD && sector < SECTORS && |bytes| == SECTOR && other < SECTORS && k < SECTOR
    ensures Spliced(memory, sector, bytes)[other * 128 + k]
            == if other == sector then bytes[k] else memory[other * 128 + k]
  {
    assert sector % SECTORS == sector;
  }

  /** The written sector holds exactly the bytes sent; every other sector is untouched. */
  lemma SplicedSectors(memory: seq<Byte>, sector: nat, bytes: seq<Byte>, other: nat)
    requires |memory| == CARD && sector < SECTORS && |bytes| == SECTOR && other < SECTORS
    ensures SectorBytes(Spliced(memory, sector, bytes), other)
            == if other == sector then bytes else SectorBytes(memory, other)
  {
    var after := SectorBytes(Spliced(memory, sector, bytes), other);
    var expected := if other == sector then bytes else SectorBytes(memory, other);
    forall k | 0 <= k < SECTOR
      ensures after[k] == expected[k]
    {
      SplicedAt(memory, sector, bytes, other, k);
    }
  }

  // ---- Whole transactions ----

  /** The card after a sequence of bytes; `flushed` answers every attempt to save. */
  function After(c: Card, sent: seq<Byte>, flushed: bool): (d: Card)
    requires c.Valid()
    ensures d.Valid()
  {
    if sent == [] then c
    else Respond(After(c, sent[..|sent| - 1], flushed), sent[|sent| - 1], flushed).0
  }

  /** The card's reply to byte i of a transaction. */
  function Reply(c: Card, sent: seq<Byte>, flushed: bool, i: nat): Byte
    requires c.Valid() && i < |sent|
  {
    Respond(After(c, sent[..i], flushed), sent[i], flushed).1
  }

  /** The card as it stands when a transaction begins. */
  predicate AtStart(c: Card) { c.Valid() && c.regs.pos == 0 }

  lemma {:induction false} AfterTracks(c: Card, sent: seq<Byte>, flushed: bool)
    requires AtStart(c) && |sent| < U16
    ensures Tracks(After(c, sent, flushed), sent)
  {
    if sent != [] {
      var m := |sent| - 1;
      AfterTracks(c, sent[..m], flushed);
      TracksStep(After(c, sent[..m], flushed), sent[..m], sent[m], flushed);
      assert sent == sent[..m] + [sent[m]];
    }
  }

  /** The memory after a whole transaction, whatever was sent. */
  lemma {:induction false} AfterMemory(c: Card, sent: seq<Byte>, flushed: bool)
    requires AtStart(c) && |sent| < U16
    ensures After(c, sent, flushed).memory
            == if |sent| < 138 then c.memory else MemoryAfter(c.memory, sent[..137])
  {
    if sent != [] {
      var m := |sent| - 1;
      AfterMemory(c, sent[..m], flushed);
      AfterTracks(c, sent[..m], flushed);
      MemoryChangesOnlySo(After(c, sent[..m], flushed), sent[..m], sent[m], flushed);
      if m >= 138 {
        assert sent[..m][..137] == sent[..137];
      }
    }
  }

  /** What a read owes its caller: the sector's bytes, their checksum, and the success byte 0x47. */
  function ReadReplyFor(bytes: seq<Byte>, head: seq<Byte>, i: nat): Byte
    requires |bytes| == SECTOR && 10 <= i < 140
  {
    if i < 138 then bytes[i - 10] else if i == 138 then XorAll(head + bytes) else 0x47
  }

  lemma ReadReturnsSector(c: Card, ask: seq<Byte>, flushed: bool, i: nat)
    requires AtStart(c) && 10 <= i < 140 && i < |ask| < U16 && ask[1] == 0x52
    ensures Reply(c, ask, flushed, i) == ReadReplyFor(SectorBytes(c.memory, SectorNumber(ask)), ask[4..6], i)
  {
    var got, bytes := ask[..i], SectorBytes(c.memory, SectorNumber(ask));
    AfterTracks(c, got, flushed);
    AfterMemory(c, got, flushed);
    assert SectorNumber(got) == SectorNumber(ask) && got[4..6] == ask[4..6];
    if i >= 138 {
      assert MemoryAfter(c.memory, got[..137]) == c.memory;
      assert bytes[..128] == bytes;
    }
  }

  /** During a write the card answers every byte with the one before it, then acknowledges; the last reply is 0x47
      exactly when the write was good and reached its file. */
  lemma WriteReplies(c: Card, sent: seq<Byte>, flushed: bool, i: nat)
    requires AtStart(c) && 6 <= i < 138 && i < |sent| < U16 && sent[1] == 0x57
    ensures Reply(c, sent, flushed, i)
            == if i <= 134 then sent[i - 1] else if i == 135 then 0x5C else if i == 136 then 0x5D
               else if CompletesWrite(sent[..137]) && flushed then 0x47 else 0x4E
  {
    var got := sent[..i];
    AfterTracks(c, got, flushed);
    if i <= 134 {
      EchoReply(After(c, got, flushed), got, sent[i], flushed);
    } else if i == 137 {
      MemoryChangesOnlySo(After(c, got, flushed), got, sent[i], flushed);
    }
  }

  lemma EchoReply(c: Card, got: seq<Byte>, v: Byte, flushed: bool)
    requires Tracks(c, got) && 6 <= |got| <= 134 && got[1] == 0x57
    ensures Respond(c, v, flushed).1 == got[|got| - 1]
  {
    if |got| > 6 {
      assert c.staged[..|got| - 6][|got| - 7] == got[6..|got|][|got| - 7];
    } else {
      assert c.regs.sector == SectorNumber(got);
    }
  }

  /** What one transaction writes, a later read of that sector returns; other sectors read as before. */
  lemma WriteThenRead(c: Card, sent: seq<Byte>, later: Card, ask: seq<Byte>, flushed: bool, i: nat)
    requires AtStart(c) && 138 <= |sent| < U16 && CompletesWrite(sent[..137])
    requires AtStart(later) && later.memory == After(c, sent, flushed).memory
    requires 10 <= i < 140 && i < |ask| < U16 && ask[1] == 0x52 && SectorNumber(ask) < SECTORS
    ensures var bytes := if SectorNumber(ask) == SectorNumber(sent) then WriteData(sent)
                         else SectorBytes(c.memory, SectorNumber(ask));
            Reply(later, ask, flushed, i) == ReadReplyFor(bytes, ask[4..6], i)
  {
    AfterMemory(c, sent, flushed);
    assert SectorNumber(sent[..137]) == SectorNumber(sent) && WriteData(sent[..137]) == WriteData(sent);
    SplicedSectors(c.memory, SectorNumber(sent), WriteData(sent), SectorNumber(ask));
    ReadReturnsSector(later, ask, flushed, i);
  }
}
