/** The macroblock decoder's command port: words in, decoded units out, with a decode attempt and a
    compaction of the parameter buffer after every word.
 */
module MdecStream {

  import opened MdecParse
  import opened Words

  const PARAM_CAP := 131072

  // ---- The command word ----

  /** How decoded units are to be presented. */
  datatype Look = Look(depth: nat, signed: bool, bit15: bool)
  {
    function Kind(): Kind { if depth == 0 || depth == 1 then Mono else Colour }
  }

  function Operation(w: Word): nat { w / 0x2000_0000 }

  function LookOf(w: Word): (r: Look)
    ensures r.depth < 4
  {
    Look(w / 0x800_0000 % 4, w / 0x400_0000 % 2 == 1, w / 0x200_0000 % 2 == 1)
  }

  function WordsExpected(w: Word): (r: nat)
    ensures r <= 0xFFFF
  {
    match Operation(w)
    case 1 => w % 0x1_0000
    case 2 => if w % 2 == 1 then 32 else 16
    case 3 => 32
    case _ => 0
  }

  // ---- Tables ----

  function TableByte(halves: seq<Half>, i: nat): (r: int)
    ensures 0 <= r < 256
  {
    if i / 2 >= |halves| then 0 else if i % 2 == 1 then halves[i / 2] / 256 else halves[i / 2] % 256
  }

  /** n bytes of a table, the first of them byte `from` of the parameters. */
  function TableBytes(halves: seq<Half>, from: nat, n: nat): (r: seq<int>)
    ensures |r| == n && forall i :: 0 <= i < n ==> r[i] == TableByte(halves, from + i)
  {
    if n == 0 then [] else TableBytes(halves, from, n - 1) + [TableByte(halves, from + n - 1)]
  }

  function QuantFrom(halves: seq<Half>, from: nat): QuantTable { TableBytes(halves, from, COEFFICIENTS) }

  function Signed16(h: Half): int { if h >= 0x8000 then h - 0x1_0000 else h }

  function ScaleFrom(halves: seq<Half>, scale: Coefficients, n: nat): (r: Coefficients)
    requires n <= COEFFICIENTS && n <= |halves|
  {
    if n == 0 then scale else ScaleFrom(halves, scale, n - 1)[n - 1 := Signed16(halves[n - 1])]
  }

  // ---- The state, and one word ----

  datatype Codec = Codec(receiving: bool, command: Word, remaining: nat, buffer: seq<Half>, tables: Tables,
                         scale: Coefficients)
  {
    function Look(): Look { LookOf(command) }
  }

  type Units = seq<seq<Coefficients>>

  datatype Fed = Fed(codec: Codec, units: Units)

  function DecodeAvailable(c: Codec, complete: bool): Fed {
    var d := Available(c.Look().Kind(), c.tables, c.buffer, complete);
    Fed(c.(buffer := d.rest), d.units)
  }

  function Finish(c: Codec): Fed {
    match Operation(c.command)
    case 1 =>
      var f := DecodeAvailable(c, true);
      Fed(f.codec.(receiving := false, remaining := 0), f.units)
    case 2 =>
      var uv := if c.command % 2 == 1 then QuantFrom(c.buffer, 64) else c.tables.uv;
      Fed(c.(receiving := false, tables := Tables(QuantFrom(c.buffer, 0), uv)), [])
    case 3 =>
      Fed(c.(receiving := false, scale := ScaleFrom(c.buffer, c.scale, Min(|c.buffer|, COEFFICIENTS))), [])
    case _ => Fed(c.(receiving := false), [])
  }

  function Accepted(c: Codec, w: Word): Codec {
    c.(receiving := WordsExpected(w) != 0, command := w, remaining := WordsExpected(w), buffer := [])
  }

  function Start(c: Codec, w: Word): Fed {
    if WordsExpected(w) != 0 then Fed(Accepted(c, w), []) else Finish(Accepted(c, w))
  }

  function Received(c: Codec, w: Word): Codec {
    c.(buffer := if |c.buffer| + 2 <= PARAM_CAP then c.buffer + [Low(w), High(w)] else c.buffer,
       remaining := if c.remaining > 0 then c.remaining - 1 else 0)
  }

  function Feed(c: Codec, w: Word): Fed {
    if !c.receiving then Start(c, w)
    else
      var r := Received(c, w);
      if r.remaining == 0 then Finish(r)
      else if Operation(c.command) == 1 then DecodeAvailable(r, false)
      else Fed(r, [])
  }

  function FeedAll(c: Codec, ws: seq<Word>): Fed {
    if ws == [] then Fed(c, [])
    else
      var before := FeedAll(c, ws[..|ws| - 1]);
      var last := Feed(before.codec, ws[|ws| - 1]);
      Fed(last.codec, before.units + last.units)
  }

  // ---- Streaming equals batch ----

  /** The state when a decode command has just been accepted. */
  predicate Decoding(c: Codec) {
    c.receiving && Operation(c.command) == 1 && c.remaining == c.command % 0x1_0000 > 0 && c.buffer == []
  }

  /** Part way through a command: exactly the words not yet decoded are held, and none was turned away. */
  predicate PartWay(c: Codec, ws: seq<Word>, f: Fed) {
    var d := Available(c.Look().Kind(), c.tables, Halves(ws), false);
    && f.units == d.units
    && f.codec == c.(remaining := if |ws| < c.remaining then c.remaining - |ws| else 0, buffer := d.rest)
    && |f.codec.buffer| + 2 <= PARAM_CAP
  }

  lemma {:induction false} StreamPartWay(c: Codec, ws: seq<Word>)
    requires Decoding(c) && |ws| < c.remaining
    ensures PartWay(c, ws, FeedAll(c, ws))
  {
    if ws != [] {
      var m := |ws| - 1;
      StreamPartWay(c, ws[..m]);
      AvailableSplits(c.Look().Kind(), c.tables, Halves(ws[..m]), [Low(ws[m]), High(ws[m])], false);
    }
  }

  /** Feeding a decode command word by word yields what one decode of its whole parameter stream yields, for
      every stream and every depth; the decoder is then idle again with its tables as they were. */
  lemma StreamingIsBatch(c: Codec, ws: seq<Word>)
    requires Decoding(c) && |ws| == c.remaining
    ensures var f := FeedAll(c, ws);
            && f.units == Available(c.Look().Kind(), c.tables, Halves(ws), true).units
            && !f.codec.receiving && f.codec.command == c.command
            && f.codec.tables == c.tables && f.codec.scale == c.scale
  {
    var m := |ws| - 1;
    StreamPartWay(c, ws[..m]);
    AvailableSplits(c.Look().Kind(), c.tables, Halves(ws[..m]), [Low(ws[m]), High(ws[m])], true);
  }

  /** One word more, and what no word of a decode command changes. */
  lemma StreamStep(c: Codec, ws: seq<Word>, i: nat)
    requires Decoding(c) && |ws| == c.remaining && i < |ws|
    ensures var before, after := FeedAll(c, ws[..i]), FeedAll(c, ws[..i + 1]);
            && after == Fed(Feed(before.codec, ws[i]).codec, before.units + Feed(before.codec, ws[i]).units)
            && before.codec.command == after.codec.command == c.command
            && before.codec.scale == after.codec.scale == c.scale
  {
    assert ws[..i + 1][..i] == ws[..i];
    StreamPartWay(c, ws[..i]);
    if i + 1 < |ws| {
      StreamPartWay(c, ws[..i + 1]);
    } else {
      assert ws[..i + 1] == ws;
      StreamingIsBatch(c, ws);
    }
  }

  /** From the command word on: every decode command, of every length, leaves the decoder idle with exactly
      the batch decoding sent. */
  lemma CommandIsBatch(c: Codec, w: Word, ws: seq<Word>)
    requires !c.receiving && Operation(w) == 1 && |ws| == w % 0x1_0000
    ensures var f := FeedAll(Feed(c, w).codec, ws);
            && Feed(c, w).units == []
            && f.units == Available(LookOf(w).Kind(), c.tables, Halves(ws), true).units
            && !f.codec.receiving && f.codec.tables == c.tables && f.codec.scale == c.scale
  {
    if ws != [] {
      StreamingIsBatch(Feed(c, w).codec, ws);
    }
  }

  // ---- How much output a command can produce ----

  lemma {:induction false} TailTakes(p: seq<Half>, k: nat, arrived: Arrivals, complete: bool)
    requires k < 63 && Tail(p, k, arrived, complete).Done?
    ensures var r := Tail(p, k, arrived, complete); |r.rest| < |p| || p == []
  {
  }

  /** A block takes two halfwords at least, unless the input ends inside it. */
  lemma BlockTakesTwo(kind: Kind, quant: QuantTable, p: seq<Half>, complete: bool)
    requires Block(kind, quant, p, complete).Done?
    ensures var r := Block(kind, quant, p, complete); |r.rest| + 2 <= |p| || (|r.rest| + 1 <= |p| && r.rest == [])
  {
    var s := SkipEnds(p);
    TailTakes(s[1..], 0, [Arrival(0, s[0])], complete);
  }

  lemma {:induction false} MonoUnitCount(t: Tables, p: seq<Half>, complete: bool)
    ensures |Available(Mono, t, p, complete).units| <= (|p| + 1) / 2
    decreases |p|
  {
    if p != [] && Unit(Mono, t, p, complete).Done? {
      BlockTakesTwo(Mono, t.y, p, complete);
      MonoUnitCount(t, Unit(Mono, t, p, complete).rest, complete);
    }
  }

  /** No luminance-only command can fill the output ring: at most 16 words a block, 65535 blocks. */
  lemma MonoFitsRing(t: Tables, ws: seq<Word>)
    requires |ws| <= 0xFFFF
    ensures 16 * |Available(Mono, t, Halves(ws), true).units| < 0x10_0000
  {
    MonoUnitCount(t, Halves(ws), true);
  }
}
