/** The decoder's command words and its tables: what the fields of a command say, and that a table holds exactly the
    values that were sent for it.
 */
module MdecTables {

  import Arith
  import opened MdecParse
  import opened MdecStream
  import opened MdecOutput
  import opened Words

  // ---- The command word ----

  /** Operation, depth of a pixel, signed output, bit 15, and the rest. */
  function CommandWord(op: nat, look: Look, rest: nat): Word
    requires op < 8 && look.depth < 4 && rest < 0x200_0000
  {
    0x2000_0000 * op + 0x800_0000 * look.depth + (if look.signed then 0x400_0000 else 0)
    + (if look.bit15 then 0x200_0000 else 0) + rest
  }

  lemma CommandFields(op: nat, look: Look, rest: nat)
    requires op < 8 && look.depth < 4 && rest < 0x200_0000
    ensures var w := CommandWord(op, look, rest);
            && Operation(w) == op && LookOf(w) == look
            && (op == 1 ==> WordsExpected(w) == rest % 0x1_0000)
            && (op == 2 ==> WordsExpected(w) == if rest % 2 == 1 then 32 else 16)
  {
    var w := CommandWord(op, look, rest);
    var low := (if look.bit15 then 0x200_0000 else 0) + rest;
    var mid := (if look.signed then 0x400_0000 else 0) + low;
    assert w / 0x800_0000 == 4 * op + look.depth;
    assert w / 0x400_0000 == 8 * op + 2 * look.depth + (if look.signed then 1 else 0);
    assert w / 0x200_0000
           == 16 * op + 4 * look.depth + (if look.signed then 2 else 0) + (if look.bit15 then 1 else 0);
    LowBits(w, op, look, rest);
  }

  lemma LowBits(w: Word, op: nat, look: Look, rest: nat)
    requires op < 8 && look.depth < 4 && rest < 0x200_0000 && w == CommandWord(op, look, rest)
    ensures w % 0x1_0000 == rest % 0x1_0000 && w % 2 == rest % 2
  {
    var high := 0x2000 * op + 0x800 * look.depth + (if look.signed then 0x400 else 0)
                + (if look.bit15 then 0x200 else 0);
    assert w == rest + high * 0x1_0000;
    Arith.AddMultiple(rest, 0x1_0000, high);
  }

  // ---- Loading a table ----

  /** A command other than decoding just holds its words until the last has come. */
  predicate Loading(c: Codec, total: nat) {
    c.receiving && (Operation(c.command) == 2 || Operation(c.command) == 3) && c.buffer == []
    && c.remaining == total && 0 < total <= 32
  }

  lemma {:induction false} Held(c: Codec, ws: seq<Word>)
    requires Loading(c, c.remaining) && |ws| < c.remaining
    ensures FeedAll(c, ws) == Fed(c.(buffer := Halves(ws), remaining := c.remaining - |ws|), [])
  {
    if ws != [] {
      Held(c, ws[..|ws| - 1]);
    }
  }

  lemma LoadedWhole(c: Codec, ws: seq<Word>)
    requires Loading(c, c.remaining) && |ws| == c.remaining
    ensures FeedAll(c, ws) == Finish(c.(buffer := Halves(ws), remaining := 0))
  {
    Held(c, ws[..|ws| - 1]);
  }

  lemma TableByteIs(halves: seq<Half>, j: nat, m: nat, odd: nat)
    requires m < |halves| && odd < 2 && j == 2 * m + odd
    ensures TableByte(halves, j) == if odd == 1 then halves[m] / 256 else halves[m] % 256
  {
  }

  lemma ByteOfHalves(halves: seq<Half>, w: Word, j: nat, k: nat, e: nat)
    requires 2 * k + 1 < |halves| && halves[2 * k] == Low(w) && halves[2 * k + 1] == High(w)
    requires e < 4 && j == 4 * k + e
    ensures TableByte(halves, j) == ByteOf(w, e)
  {
    HalfBytes(w);
    if e == 0 {
      TableByteIs(halves, j, 2 * k, 0);
    } else if e == 1 {
      TableByteIs(halves, j, 2 * k, 1);
    } else if e == 2 {
      TableByteIs(halves, j, 2 * k + 1, 0);
    } else {
      TableByteIs(halves, j, 2 * k + 1, 1);
    }
  }

  lemma HalfBytes(w: Word)
    ensures ByteOf(w, 0) == Low(w) % 256 && ByteOf(w, 1) == Low(w) / 256
    ensures ByteOf(w, 2) == High(w) % 256 && ByteOf(w, 3) == High(w) / 256
  {
  }

  /** A table of quantisers: byte i of the words sent is entry i, and with bit 0 of the command the next 64 are the
      entries for the colour differences; without it those stay. */
  lemma QuantTablesLoaded(c: Codec, w: Word, ws: seq<Word>, i: nat)
    requires !c.receiving && Operation(w) == 2 && |ws| == (if w % 2 == 1 then 32 else 16) && i < COEFFICIENTS
    ensures var f := FeedAll(Feed(c, w).codec, ws);
            && !f.codec.receiving && f.units == [] && f.codec.scale == c.scale
            && f.codec.tables.y[i] == ByteOf(ws[i / 4], i % 4)
            && f.codec.tables.uv[i] == if w % 2 == 1 then ByteOf(ws[16 + i / 4], i % 4) else c.tables.uv[i]
  {
    CommandLoads(c, w, ws);
    EntryIs(ws, 0, i, i / 4, i % 4);
    if w % 2 == 1 { EntryIs(ws, 16, i, i / 4, i % 4); }
  }

  lemma EntryIs(ws: seq<Word>, from: nat, i: nat, k: nat, e: nat)
    requires i < COEFFICIENTS && from + 16 <= |ws| && e < 4 && i == 4 * k + e
    ensures QuantFrom(Halves(ws), 4 * from)[i] == ByteOf(ws[from + k], e)
  {
    WordSent(ws, from + k);
    WordOfEntry(Halves(ws), ws[from + k], from, i, k, e, from + k);
  }

  /** The word's halves are where they should be. */
  predicate Holds(halves: seq<Half>, n: nat, w: Word) {
    2 * n + 1 < |halves| && halves[2 * n] == Low(w) && halves[2 * n + 1] == High(w)
  }

  ghost function HoldsAt(n: nat, w: Word): seq<Half> -> bool { (halves: seq<Half>) => Holds(halves, n, w) }

  lemma WordSent(ws: seq<Word>, n: nat)
    requires n < |ws|
    ensures HoldsAt(n, ws[n])(Halves(ws))
  {
    HalvesAt(ws, n);
  }

  lemma WordOfEntry(halves: seq<Half>, w: Word, from: nat, i: nat, k: nat, e: nat, n: nat)
    requires i < COEFFICIENTS && e < 4 && i == 4 * k + e && n == from + k && HoldsAt(n, w)(halves)
    ensures QuantFrom(halves, 4 * from)[i] == ByteOf(w, e)
  {
    var j := 4 * from + i;
    TableEntry(halves, 4 * from, i, j);
    ByteOfHalves(halves, w, j, n, e);
  }

  lemma TableEntry(halves: seq<Half>, from: nat, i: nat, j: nat)
    requires i < COEFFICIENTS && j == from + i
    ensures QuantFrom(halves, from)[i] == TableByte(halves, j)
  {
  }

  lemma CommandLoads(c: Codec, w: Word, ws: seq<Word>)
    requires !c.receiving && (Operation(w) == 2 || Operation(w) == 3) && |ws| == WordsExpected(w)
    ensures FeedAll(Feed(c, w).codec, ws)
            == Finish(Codec(true, w, 0, Halves(ws), c.tables, c.scale))
  {
    LoadedWhole(Feed(c, w).codec, ws);
  }

  lemma {:induction false} ScaleAt(halves: seq<Half>, scale: Coefficients, n: nat, i: nat)
    requires n <= COEFFICIENTS && n <= |halves| && i < COEFFICIENTS
    ensures ScaleFrom(halves, scale, n)[i] == if i < n then Signed16(halves[i]) else scale[i]
  {
    if n > 0 { ScaleAt(halves, scale, n - 1, i); }
  }

  /** The scale table: halfword i of the words sent, as a signed number, is entry i. */
  lemma ScaleTableLoaded(c: Codec, w: Word, ws: seq<Word>, i: nat)
    requires !c.receiving && Operation(w) == 3 && |ws| == 32 && i < COEFFICIENTS
    ensures var f := FeedAll(Feed(c, w).codec, ws);
            var sent := if i % 2 == 0 then Low(ws[i / 2]) else High(ws[i / 2]);
            && !f.codec.receiving && f.units == [] && f.codec.tables == c.tables
            && -0x8000 <= f.codec.scale[i] < 0x8000 && (sent - f.codec.scale[i]) % 0x1_0000 == 0
  {
    CommandLoads(c, w, ws);
    ScaleAt(Halves(ws), c.scale, COEFFICIENTS, i);
    HalvesAt(ws, i / 2);
    HalfOfEntry(Halves(ws), i, i / 2);
    SignedMeans(Halves(ws)[i]);
  }

  lemma HalfOfEntry(halves: seq<Half>, i: nat, k: nat)
    requires k == i / 2 && 2 * k + 1 < |halves|
    ensures halves[i] == if i % 2 == 0 then halves[2 * k] else halves[2 * k + 1]
  {
  }

  lemma SignedMeans(h: Half)
    ensures -0x8000 <= Signed16(h) < 0x8000 && (h - Signed16(h)) % 0x1_0000 == 0
  {
  }

  // ---- Pixels as bytes ----

  /** A pixel of 24 bits is three bytes, the lowest first; one of 15 bits is two, with bit 15 as the command says. */
  lemma PixelBytesMean(look: Look, value: nat)
    requires 2 <= look.depth <= 3
    ensures var low: int, mid: int, high: int :=
              PixelByte(look, value, 0), PixelByte(look, value, 1), PixelByte(look, value, 2);
            if look.depth == 2 then low + 0x100 * mid + 0x1_0000 * high == value % 0x100_0000
            else low + 0x100 * mid == value % 0x8000 + if look.bit15 then 0x8000 else 0
  {
    ByteParts(value);
  }

  lemma ByteParts(v: nat)
    ensures v % 0x100 + 0x100 * (v / 0x100 % 0x100) + 0x1_0000 * (v / 0x1_0000 % 0x100) == v % 0x100_0000
    ensures v % 0x100 + 0x100 * (v / 0x100 % 0x80) == v % 0x8000
  {
    var b, c := v / 0x100, v / 0x1_0000;
    assert b / 0x100 == c;
    ThreeParts(v % 0x100, b % 0x100, c % 0x100, c / 0x100, v);
    TwoParts(v % 0x100, b % 0x80, b / 0x80, v);
  }

  lemma ThreeParts(low: nat, mid: nat, high: nat, rest: nat, v: nat)
    requires low < 0x100 && mid < 0x100 && high < 0x100
    requires v == low + 0x100 * mid + 0x1_0000 * high + 0x100_0000 * rest
    ensures v % 0x100_0000 == low + 0x100 * mid + 0x1_0000 * high
  {
  }

  lemma TwoParts(low: nat, high: nat, rest: nat, v: nat)
    requires low < 0x100 && high < 0x80 && v == low + 0x100 * high + 0x8000 * rest
    ensures v % 0x8000 == low + 0x100 * high
  {
  }

  /** Four-bit pixels go two to a byte, the first in the low half; eight-bit pixels one to a byte. */
  lemma MonoBytesMean(look: Look, values: seq<nat>, i: nat)
    requires look.depth <= 1 && |values| == 64 && i < 64
    ensures if look.depth == 0 then
              var b: int := UnitByte(look, values, i / 2);
              (if i % 2 == 0 then b % 16 else b / 16) == values[i] % 16
            else UnitByte(look, values, i) == values[i] % 256
  {
    if look.depth == 0 {
      assert i == 2 * (i / 2) + i % 2;
    }
  }
}
