/** The macroblock decoder as the emulator runs it: the parameter buffer with its compaction, the decoding
    loops, the output ring and the DMA staging buffer, each proved against the functions of `MdecParse`,
    `MdecStream` and `MdecOutput`.
 */
module MdecDevice {

  import opened MdecParse
  import opened MdecStream
  import opened MdecOutput
  import opened Words

  const STAGE_CAP := 192

  /** The result of a macroblock whose first blocks have been parsed. */
  function Prepend(blocks: seq<Coefficients>, r: Parsed<seq<Coefficients>>): Parsed<seq<Coefficients>> {
    match r
    case Short => Short
    case Done(others, rest) => Done(blocks + others, rest)
  }

  lemma FilledOneMore(kind: Kind, quant: QuantTable, q: nat, arrived: Arrivals, a: Arrival)
    ensures Filled(kind, quant, q, arrived + [a]) == Put(kind, quant, q, Filled(kind, quant, q, arrived), a)
  {
    assert (arrived + [a])[..|arrived|] == arrived;
  }

  lemma OneMoreBlock(t: Tables, p: seq<Half>, i: nat, complete: bool, blocks: seq<Coefficients>)
    requires i < 6
    ensures var b := Block(Colour, if i < 2 then t.uv else t.y, p, complete);
            Prepend(blocks, Macroblock(t, p, i, complete))
            == if b.Short? then Short else Prepend(blocks + [b.value], Macroblock(t, b.rest, i + 1, complete))
  {
    var b := Block(Colour, if i < 2 then t.uv else t.y, p, complete);
    if b.Done? {
      var m := Macroblock(t, b.rest, i + 1, complete);
      if m.Done? {
        assert blocks + ([b.value] + m.value) == (blocks + [b.value]) + m.value;
      }
    }
  }

  lemma NoMoreBlocks(t: Tables, p: seq<Half>, complete: bool, blocks: seq<Coefficients>)
    ensures Prepend(blocks, Macroblock(t, p, 6, complete)) == Done(blocks, p)
    ensures Prepend([], Macroblock(t, p, 0, complete)) == Macroblock(t, p, 0, complete)
  {
    assert blocks + [] == blocks;
    var m := Macroblock(t, p, 0, complete);
    if m.Done? { assert [] + m.value == m.value; }
  }

  /** The bytes of one colour pixel, in order. */
  function PixelBytes(look: Look, value: nat): (r: seq<Byte>)
    ensures |r| == PixelSize(look)
  {
    if look.depth == 2 then [PixelByte(look, value, 0), PixelByte(look, value, 1), PixelByte(look, value, 2)]
    else [PixelByte(look, value, 0), PixelByte(look, value, 1)]
  }

  lemma PixelBytesAre(look: Look, values: seq<nat>, d: nat, bytes: seq<Byte>)
    requires look.Kind() == Colour && look.depth < 4 && |values| == 256 && d < 256
    requires bytes == UnitBytes(look, values, ByteCount(look))
    ensures var size := PixelSize(look); var at := PixelStart(size, d, 0);
            at + size <= |bytes| && PixelBytes(look, values[d]) == bytes[at..at + size]
  {
    ColourByte(look, values, d, 0);
    ColourByte(look, values, d, 1);
    if look.depth == 2 {
      ColourByte(look, values, d, 2);
    }
  }

  /** How far a unit has been pushed: `at` bytes produced, `words` words in the ring, the rest pending. */
  datatype Progress = Progress(before: seq<Word>, bytes: seq<Byte>, at: nat, words: nat)
  {
    predicate Holds(contents: seq<Word>, pending: seq<Byte>) {
      && |before| <= RING_CAP && 4 * words <= at <= |bytes| && pending == bytes[4 * words..at]
      && contents == Appended(before, Packed(bytes, words))
    }
  }

  lemma ProgressStarts(before: seq<Word>, bytes: seq<Byte>)
    requires |before| <= RING_CAP
    ensures Progress(before, bytes, 0, 0).Holds(before, [])
  {
    assert before + [] == before;
  }

  lemma ProgressGrows(p: Progress, contents: seq<Word>, pending: seq<Byte>, more: seq<Byte>)
    requires p.Holds(contents, pending) && p.at + |more| <= |p.bytes| && more == p.bytes[p.at..p.at + |more|]
    ensures p.(at := p.at + |more|).Holds(contents, pending + more)
  {
  }

  lemma ProgressPacks(p: Progress, contents: seq<Word>, pending: seq<Byte>, word: Word)
    requires p.Holds(contents, pending) && |pending| >= 4
    requires word == Little(pending[0], pending[1], pending[2], pending[3])
    ensures |contents| <= RING_CAP && p.(words := p.words + 1).Holds(Appended(contents, [word]), pending[4..])
  {
    assert word == PackedWord(p.bytes, p.words);
    AppendedJoin(p.before, Packed(p.bytes, p.words), [word]);
  }

  lemma ProgressEnds(p: Progress, contents: seq<Word>, pending: seq<Byte>)
    requires p.Holds(contents, pending) && |pending| < 4 && p.at == |p.bytes| && |p.bytes| % 4 == 0
    ensures pending == [] && contents == Appended(p.before, Packed(p.bytes, |p.bytes| / 4))
  {
  }

  lemma WholeUnit(look: Look)
    requires look.Kind() == Colour && look.depth < 4
    ensures PixelStart(PixelSize(look), 256, 0) == ByteCount(look) == 4 * WordCount(look)
    ensures WordCount(look) == 64 * PixelSize(look) <= STAGE_CAP
  {
  }

  lemma RenderedStart(paint: Painter, look: Look, scale: Coefficients, contents: seq<Word>)
    requires |contents| <= RING_CAP
    ensures contents == Appended(contents, RenderedAll(paint, look, scale, []))
  {
    assert contents + [] == contents;
  }

  lemma RenderedOneMore(paint: Painter, look: Look, scale: Coefficients, units: Units, unit: seq<Coefficients>,
                        before: seq<Word>)
    requires |before| <= RING_CAP
    ensures Appended(Appended(before, RenderedAll(paint, look, scale, units)), Rendered(paint, look, scale, unit))
            == Appended(before, RenderedAll(paint, look, scale, units + [unit]))
  {
    AppendedJoin(before, RenderedAll(paint, look, scale, units), Rendered(paint, look, scale, unit));
    assert (units + [unit])[..|units|] == units;
  }

  lemma AvailableStep(kind: Kind, t: Tables, p: seq<Half>, complete: bool, units: Units)
    requires p != []
    ensures After(units, Available(kind, t, p, complete))
            == (var r := Unit(kind, t, p, complete);
                if r.Short? then Decoded(units, p)
                else After(units + [r.value], Available(kind, t, r.rest, complete)))
  {
    var r := Unit(kind, t, p, complete);
    if r.Short? {
      assert units + [] == units;
    } else {
      AfterAfter(units, [r.value], Available(kind, t, r.rest, complete));
    }
  }

  /** The units that can be decoded, and what is left. */
  ghost function DecodesTo(c: Codec, complete: bool): (Units, seq<Half>) -> bool {
    (units: Units, rest: seq<Half>) =>
      Available(c.Look().Kind(), c.tables, c.buffer, complete) == Decoded(units, rest)
  }

  lemma DecodedNow(c: Codec, complete: bool, units: Units, rest: seq<Half>, d: Codec)
    requires DecodesTo(c, complete)(units, rest)
    requires d == c.(buffer := rest)
    ensures Fed(d, units) == DecodeAvailable(c, complete)
  {
  }

  lemma AvailableEnds(kind: Kind, t: Tables, complete: bool, units: Units)
    ensures After(units, Available(kind, t, [], complete)) == Decoded(units, [])
  {
    assert units + [] == units;
  }

  lemma JoinMore(paint: Painter, look: Look, scale: Coefficients, before: seq<Word>, units: Units, more: Units)
    requires |before| <= RING_CAP
    ensures Appended(Appended(before, RenderedAll(paint, look, scale, units)), RenderedAll(paint, look, scale, more))
            == Appended(before, RenderedAll(paint, look, scale, units + more))
  {
    AppendedJoin(before, RenderedAll(paint, look, scale, units), RenderedAll(paint, look, scale, more));
    RenderedJoin(paint, look, scale, units, more);
  }

  lemma {:induction false} UnpackedPrefix(words: seq<Word>, n: nat, m: nat)
    requires m <= n <= |words|
    ensures Unpacked(words[..n], m) == Unpacked(words, m)
  {
    if m > 0 {
      UnpackedPrefix(words, n, m - 1);
    }
  }

  lemma ReorderedOne(raw: seq<Byte>, size: nat, n: nat, from: nat)
    requires (size == 2 || size == 3) && |raw| == 256 * size && n < |raw| && from == SourceByte(size, n)
    ensures Reordered(raw, size, n + 1) == Reordered(raw, size, n) + [raw[from]]
  {
  }

  lemma SliceOfTwo(raw: seq<Byte>, from: nat)
    requires from + 2 <= |raw|
    ensures raw[from..from + 2] == [raw[from]] + [raw[from + 1]]
    ensures from + 3 <= |raw| ==> raw[from..from + 3] == ([raw[from]] + [raw[from + 1]]) + [raw[from + 2]]
  {
  }

  lemma JoinThree(a: seq<Byte>, x: Byte, y: Byte, z: Byte)
    ensures (a + [x]) + [y] == a + ([x] + [y])
    ensures ((a + [x]) + [y]) + [z] == a + (([x] + [y]) + [z])
  {
  }

  lemma ReorderedGrows(raw: seq<Byte>, size: nat, d: nat)
    requires (size == 2 || size == 3) && |raw| == 256 * size && d < 256
    ensures var from := PixelStart(size, SourcePixel(d), 0);
            from + size <= |raw|
            && Reordered(raw, size, PixelStart(size, d + 1, 0))
               == Reordered(raw, size, PixelStart(size, d, 0)) + raw[from..from + size]
  {
    var at, from := PixelStart(size, d, 0), PixelStart(size, SourcePixel(d), 0);
    SourceByteIs(size, d, 0);
    SourceByteIs(size, d, 1);
    ReorderedOne(raw, size, at, from);
    ReorderedOne(raw, size, at + 1, from + 1);
    SliceOfTwo(raw, from);
    if size == 3 {
      SourceByteIs(size, d, 2);
      ReorderedOne(raw, size, at + 2, from + 2);
    }
    JoinThree(Reordered(raw, size, at), raw[from], raw[from + 1], raw[from + size - 1]);
  }

  lemma SourceByteIs(size: nat, d: nat, e: nat)
    requires (size == 2 || size == 3) && d < 256 && e < size
    ensures PixelStart(size, d, e) == PixelStart(size, d, 0) + e < 256 * size
    ensures SourceByte(size, PixelStart(size, d, e)) == PixelStart(size, SourcePixel(d), 0) + e
  {
    var j := PixelStart(size, d, e);
    if size == 2 {
      assert j / 2 == d && j % 2 == e;
    } else {
      assert j / 3 == d && j % 3 == e;
    }
  }

  class Mdec {
    const params: array<Half>
    const ring: OutputRing
    const dmaOutput: array<Word>
    const paint: Painter
    var count: nat
    var decodePos: nat
    var command: Word
    var receiving: bool
    var remaining: nat
    var tables: Tables
    var scale: Coefficients
    var dmaRead: nat
    var dmaCount: nat

    ghost function Repr(): set<object> { {this, params, ring, ring.output, dmaOutput} }

    ghost predicate Shaped()
      reads this, ring, ring.output
    {
      && params.Length == PARAM_CAP && dmaOutput.Length == STAGE_CAP
      && count <= PARAM_CAP && decodePos <= count && dmaRead + dmaCount <= STAGE_CAP && ring.Valid()
    }

    ghost predicate Valid()
      reads this, ring, ring.output
    {
      Shaped() && decodePos == 0
    }

    ghost function State(): Codec
      reads this, params
      requires params.Length == PARAM_CAP && count <= PARAM_CAP
    {
      Codec(receiving, command, remaining, params[..count], tables, scale)
    }

    function Look(): Look
      reads this
    {
      LookOf(command)
    }

    constructor (paint: Painter)
      ensures Valid() && fresh(Repr()) && !receiving && ring.contents == []
    {
      this.paint := paint;
      params := new Half[PARAM_CAP](_ => 0);
      ring := new OutputRing();
      dmaOutput := new Word[STAGE_CAP](_ => 0);
      count, decodePos, receiving, remaining, dmaRead, dmaCount := 0, 0, false, 0, 0, 0;
      command := 2 * 0x800_0000;
      tables := Tables(Repeated(1, COEFFICIENTS), Repeated(1, COEFFICIENTS));
      scale := Zeros;
    }

    // ---- Decoding ----

    /** The parameters from position `at` on. */
    ghost function Left(at: nat): (r: seq<Half>)
      reads this, params
      requires params.Length == PARAM_CAP && at <= count <= PARAM_CAP
      ensures |r| == count - at
    {
      params[at..count]
    }

    lemma LeftStep(at: nat)
      requires params.Length == PARAM_CAP && at < count <= PARAM_CAP
      ensures Left(at)[0] == params[at] && Left(at)[1..] == Left(at + 1)
    {
    }

    method SkipEndMarks(pos: nat) returns (at: nat)
      requires Shaped() && pos <= count
      ensures pos <= at <= count && Left(at) == SkipEnds(Left(pos))
    {
      at := pos;
      while at < count && params[at] == END
        invariant pos <= at <= count && SkipEnds(Left(at)) == SkipEnds(Left(pos))
      {
        LeftStep(at);
        at := at + 1;
      }
    }

    /** One block, run by run; `next` is where the input goes on. */
    method DecodeBlock(kind: Kind, pos: nat, quant: QuantTable, complete: bool)
      returns (ok: bool, c: Coefficients, next: nat)
      requires Shaped() && pos <= count
      ensures ok ==> pos < next <= count
      ensures Block(kind, quant, Left(pos), complete) == if ok then Done(c, Left(next)) else Short
    {
      c := Zeros;
      var at := SkipEndMarks(pos);
      if at >= count { return false, c, pos; }
      var q := Run(params[at]);
      ghost var arrived;
      LeftStep(at);
      ok, c, next, arrived := DecodeTail(kind, at, quant, q, complete);
    }

    /** What comes after coefficient k: another arrival, or the end of the block. */
    method NextRun(k: nat, next: nat, complete: bool, ghost arrived: Arrivals)
      returns (more: bool, ok: bool, a: Arrival, after: nat)
      requires Shaped() && k < COEFFICIENTS && next <= count
      ensures next <= after <= count && (more ==> k < a.k && next < after)
      ensures Tail(Left(next), k, arrived, complete)
              == if more then Tail(Left(after), a.k, arrived + [a], complete)
                 else if ok then Done(arrived, Left(after)) else Short
    {
      a := Arrival(0, 0);
      if k >= 63 { return false, true, a, next; }
      if next >= count { return false, complete, a, next; }
      LeftStep(next);
      var h := params[next];
      after := next + 1;
      if h == END || k + Run(h) + 1 > 63 { return false, true, a, after; }
      return true, true, Arrival(k + Run(h) + 1, h), after;
    }

    /** Set the coefficient that has just arrived. */
    method SetCoefficient(kind: Kind, quant: QuantTable, q: nat, c: Coefficients, a: Arrival, ghost arrived: Arrivals)
      returns (d: Coefficients)
      requires c == Filled(kind, quant, q, arrived)
      ensures d == Filled(kind, quant, q, arrived + [a])
    {
      FilledOneMore(kind, quant, q, arrived, a);
      d := Put(kind, quant, q, c, a);
    }

    /** The block that starts at the halfword at `start`. */
    method DecodeTail(kind: Kind, start: nat, quant: QuantTable, q: nat, complete: bool)
      returns (ok: bool, c: Coefficients, next: nat, ghost arrived: Arrivals)
      requires Shaped() && start < count
      ensures start < next <= count
      ensures c == Filled(kind, quant, q, arrived)
      ensures Tail(Left(start + 1), 0, [Arrival(0, params[start])], complete)
              == if ok then Done(arrived, Left(next)) else Short
    {
      var a := Arrival(0, params[start]);
      next := start + 1;
      ghost var whole := Tail(Left(next), 0, [a], complete);
      c, arrived := FirstCoefficient(kind, quant, q, a);
      ok := true;
      var more := true;
      while more
        invariant start < next <= count
        invariant c == Filled(kind, quant, q, arrived)
        invariant whole == if more then Tail(Left(next), a.k, arrived, complete)
                           else if ok then Done(arrived, Left(next)) else Short
        decreases more, COEFFICIENTS - a.k
      {
        more, ok, a, next, c, arrived := OneRun(kind, quant, q, a, next, complete, c, arrived);
      }
    }

    method FirstCoefficient(kind: Kind, quant: QuantTable, q: nat, a: Arrival)
      returns (c: Coefficients, ghost arrived: Arrivals)
      ensures arrived == [a] && c == Filled(kind, quant, q, arrived)
    {
      c := SetCoefficient(kind, quant, q, Zeros, a, []);
      arrived := [] + [a];
      assert arrived == [a];
    }

    /** One turn of the loop: the next arrival, if there is one, is put in its place. */
    method OneRun(kind: Kind, quant: QuantTable, q: nat, a: Arrival, next: nat, complete: bool, c: Coefficients,
                  ghost arrived: Arrivals)
      returns (more: bool, ok: bool, b: Arrival, after: nat, d: Coefficients, ghost longer: Arrivals)
      requires Shaped() && next <= count && c == Filled(kind, quant, q, arrived)
      ensures next <= after <= count && (more ==> a.k < b.k) && d == Filled(kind, quant, q, longer)
      ensures Tail(Left(next), a.k, arrived, complete)
              == if more then Tail(Left(after), b.k, longer, complete)
                 else if ok then Done(longer, Left(after)) else Short
    {
      more, ok, b, after := NextRun(a.k, next, complete, arrived);
      d, longer := c, arrived;
      if more {
        d := SetCoefficient(kind, quant, q, c, b, arrived);
        longer := arrived + [b];
      }
    }

    /** The blocks of one unit; nothing is consumed unless all of them are there. */
    method DecodeUnit(pos: nat, complete: bool) returns (ok: bool, unit: seq<Coefficients>, next: nat)
      requires Shaped() && pos <= count
      ensures ok ==> pos < next <= count
      ensures Unit(Look().Kind(), tables, Left(pos), complete)
              == if ok then Done(unit, Left(next)) else Short
    {
      if Look().Kind() == Mono {
        var c;
        ok, c, next := DecodeBlock(Mono, pos, tables.y, complete);
        unit := [c];
      } else {
        ok, unit, next := DecodeMacroblock(pos, complete);
      }
    }

    method DecodeMacroblock(pos: nat, complete: bool) returns (ok: bool, unit: seq<Coefficients>, next: nat)
      requires Shaped() && pos <= count
      ensures ok ==> pos < next <= count
      ensures Macroblock(tables, Left(pos), 0, complete) == if ok then Done(unit, Left(next)) else Short
    {
      var i := 0;
      unit, next := [], pos;
      NoMoreBlocks(tables, Left(pos), complete, []);
      ghost var whole := Macroblock(tables, Left(pos), 0, complete);
      while i < 6
        invariant 0 <= i <= 6 && pos <= next <= count && (i > 0 ==> pos < next)
        invariant whole == Prepend(unit, Macroblock(tables, Left(next), i, complete))
      {
        OneMoreBlock(tables, Left(next), i, complete, unit);
        var c;
        ok, c, next := DecodeBlock(Colour, next, if i < 2 then tables.uv else tables.y, complete);
        if !ok { return false, unit, pos; }
        unit := unit + [c];
        i := i + 1;
      }
      NoMoreBlocks(tables, Left(next), complete, unit);
      ok := true;
    }

    // ---- Presenting a unit ----

    method PushPacked(bytes: seq<Byte>)
      requires Shaped()
      modifies ring, ring.output
      ensures Shaped() && ring.contents == Appended(old(ring.contents), Packed(bytes, |bytes| / 4))
    {
      ghost var before := ring.contents;
      var i := 0;
      while i < |bytes| / 4
        invariant 0 <= i <= |bytes| / 4 && Shaped() && ring.contents == Appended(before, Packed(bytes, i))
      {
        ring.Push(PackedWord(bytes, i));
        AppendedJoin(before, Packed(bytes, i), [PackedWord(bytes, i)]);
        i := i + 1;
      }
    }

    method OutputMono(unit: seq<Coefficients>)
      requires Shaped() && Look().Kind() == Mono
      modifies ring, ring.output
      ensures Shaped() && ring.contents == Appended(old(ring.contents), Rendered(paint, Look(), scale, unit))
    {
      PushPacked(Presented(paint, Look(), scale, unit));
    }

    /** Add the bytes of one pixel and push a word as soon as four bytes are waiting. */
    method PushBytes(pending: seq<Byte>, more: seq<Byte>, ghost p: Progress)
      returns (left: seq<Byte>, ghost q: Progress)
      requires Shaped() && p.Holds(ring.contents, pending) && |pending| < 4 && |more| <= 4
      requires p.at + |more| <= |p.bytes| && more == p.bytes[p.at..p.at + |more|]
      modifies ring, ring.output
      ensures Shaped() && q.Holds(ring.contents, left) && |left| < 4
      ensures q.at == p.at + |more| && q.bytes == p.bytes && q.before == p.before
    {
      left := pending + more;
      q := p.(at := p.at + |more|);
      ProgressGrows(p, ring.contents, pending, more);
      if |left| >= 4 {
        left, q := PushFour(left, q);
      }
    }

    method PushFour(pending: seq<Byte>, ghost p: Progress) returns (left: seq<Byte>, ghost q: Progress)
      requires Shaped() && p.Holds(ring.contents, pending) && |pending| >= 4
      modifies ring, ring.output
      ensures Shaped() && left == pending[4..] && q == p.(words := p.words + 1) && q.Holds(ring.contents, left)
    {
      var word := Little(pending[0], pending[1], pending[2], pending[3]);
      q := p.(words := p.words + 1);
      ProgressPacks(p, ring.contents, pending, word);
      ring.Push(word);
      left := pending[4..];
    }

    /** Fill up and push a last incomplete word, if there is one. */
    method PadPending(pending: seq<Byte>)
      requires Shaped() && |pending| < 4
      modifies ring, ring.output
      ensures Shaped() && (pending == [] ==> ring.contents == old(ring.contents))
    {
      if |pending| > 0 {
        var padded := pending + [0, 0, 0];
        ring.Push(Little(padded[0], padded[1], padded[2], padded[3]));
      }
    }

    /** One pixel of a macroblock. */
    method PushPixel(unit: seq<Coefficients>, pixel: nat, pending: seq<Byte>, ghost p: Progress)
      returns (left: seq<Byte>, ghost q: Progress)
      requires Shaped() && Look().Kind() == Colour && pixel < 256
      requires p.Holds(ring.contents, pending) && |pending| < 4
      requires p.at == PixelStart(PixelSize(Look()), pixel, 0) && p.bytes == Presented(paint, Look(), scale, unit)
      modifies ring, ring.output
      ensures Shaped() && q.Holds(ring.contents, left) && |left| < 4
      ensures q.at == PixelStart(PixelSize(Look()), pixel + 1, 0) && q.bytes == p.bytes && q.before == p.before
    {
      PixelBytesAre(Look(), Painted(paint, Look(), scale, unit, 256), pixel, p.bytes);
      left, q := PushBytes(pending, PixelBytes(Look(), paint(Look(), scale, unit, pixel)), p);
    }

    /** A whole macroblock is a whole number of words, so nothing is left to pad. */
    method OutputColour(unit: seq<Coefficients>)
      requires Shaped() && Look().Kind() == Colour
      modifies ring, ring.output
      ensures Shaped() && ring.contents == Appended(old(ring.contents), Rendered(paint, Look(), scale, unit))
    {
      var pending: seq<Byte>, pixel := [], 0;
      ghost var bytes := Presented(paint, Look(), scale, unit);
      ghost var p, size := Progress(ring.contents, bytes, 0, 0), PixelSize(Look());
      ProgressStarts(ring.contents, bytes);
      while pixel < 256
        invariant 0 <= pixel <= 256 && p.at == PixelStart(size, pixel, 0)
        invariant Shaped() && p.Holds(ring.contents, pending) && |pending| < 4
        invariant p.bytes == bytes && p.before == old(ring.contents)
      {
        pending, p := PushPixel(unit, pixel, pending, p);
        pixel := pixel + 1;
      }
      WholeUnit(Look());
      ProgressEnds(p, ring.contents, pending);
      PadPending(pending);
    }

    method Output(unit: seq<Coefficients>)
      requires Shaped()
      modifies ring, ring.output
      ensures Shaped() && ring.contents == Appended(old(ring.contents), Rendered(paint, Look(), scale, unit))
    {
      if Look().Kind() == Mono {
        OutputMono(unit);
      } else {
        OutputColour(unit);
      }
    }

    // ---- The command port ----

    /** Move what has not been decoded to the front of the buffer. */
    method Compact()
      requires Shaped()
      modifies this`count, this`decodePos, params
      ensures Valid() && params[..count] == old(Left(decodePos))
      ensures State() == old(State()).(buffer := old(Left(decodePos))) && Look() == old(Look())
    {
      var from, n, i := decodePos, count, 0;
      ghost var was := params[..count];
      while i < n - from
        invariant 0 <= i <= n - from && from == decodePos && n == count && Shaped()
        invariant forall k :: 0 <= k < i ==> params[k] == was[from + k]
        invariant forall k :: i <= k < n ==> params[k] == was[k]
      {
        params[i] := params[from + i];
        i := i + 1;
      }
      count, decodePos := n - from, 0;
    }

    /** Decode and present one unit, if it is there. */
    method DecodeOne(complete: bool, ghost units: Units, ghost before: seq<Word>)
      returns (ok: bool, ghost longer: Units)
      requires Shaped() && decodePos < count && |before| <= RING_CAP
      requires ring.contents == Appended(before, RenderedAll(paint, Look(), scale, units))
      modifies this`decodePos, ring, ring.output
      ensures Shaped() && (ok ==> decodePos > old(decodePos))
      ensures After(units, Available(Look().Kind(), tables, old(Left(decodePos)), complete))
              == if ok then After(longer, Available(Look().Kind(), tables, Left(decodePos), complete))
                 else Decoded(longer, Left(decodePos))
      ensures ring.contents == Appended(before, RenderedAll(paint, Look(), scale, longer))
    {
      var unit, next;
      longer := units;
      AvailableStep(Look().Kind(), tables, Left(decodePos), complete, units);
      ok, unit, next := DecodeUnit(decodePos, complete);
      if ok {
        Output(unit);
        RenderedOneMore(paint, Look(), scale, units, unit, before);
        longer := units + [unit];
        decodePos := next;
      }
    }

    /** Decode every unit that is there, and keep the rest for later. */
    method DecodeAll(complete: bool) returns (ghost units: Units)
      requires Valid()
      modifies this`decodePos, ring, ring.output
      ensures Shaped() && State() == old(State()) && Look() == old(Look())
      ensures DecodesTo(old(State()), complete)(units, Left(decodePos))
      ensures ring.contents == Appended(old(ring.contents), RenderedAll(paint, Look(), scale, units))
    {
      units := [];
      var going := true;
      ghost var kind, before := Look().Kind(), ring.contents;
      ghost var whole := Available(kind, tables, Left(0), complete);
      AfterAfter([], [], whole);
      RenderedStart(paint, Look(), scale, before);
      while decodePos < count && going
        invariant Shaped()
        invariant whole == if going then After(units, Available(kind, tables, Left(decodePos), complete))
                           else Decoded(units, Left(decodePos))
        invariant ring.contents == Appended(before, RenderedAll(paint, Look(), scale, units))
        decreases going, count - decodePos
      {
        going, units := DecodeOne(complete, units, before);
      }
      AvailableEnds(kind, tables, complete, units);
      assert Left(0) == old(State()).buffer;
    }

    method DecodeNow(complete: bool) returns (ghost units: Units)
      requires Valid()
      modifies this`count, this`decodePos, params, ring, ring.output
      ensures Valid() && Fed(State(), units) == DecodeAvailable(old(State()), complete)
      ensures ring.contents == Appended(old(ring.contents), RenderedAll(paint, Look(), scale, units))
    {
      ghost var c := State();
      ghost var rest;
      units, rest := DecodeAndCompact(complete);
      DecodedNow(c, complete, units, rest, State());
    }

    method DecodeAndCompact(complete: bool) returns (ghost units: Units, ghost rest: seq<Half>)
      requires Valid()
      modifies this`count, this`decodePos, params, ring, ring.output
      ensures Valid() && DecodesTo(old(State()), complete)(units, rest)
      ensures State() == old(State()).(buffer := rest)
      ensures ring.contents == Appended(old(ring.contents), RenderedAll(paint, Look(), scale, units))
    {
      units := DecodeAll(complete);
      rest := Left(decodePos);
      Compact();
    }

    method FinishCommand() returns (ghost units: Units)
      requires Valid()
      modifies this, params, ring, ring.output
      ensures Valid() && Fed(State(), units) == Finish(old(State())) && command == old(command)
      ensures ring.contents == Appended(old(ring.contents), RenderedAll(paint, Look(), old(scale), units))
      ensures dmaRead == old(dmaRead) && dmaCount == old(dmaCount)
    {
      units := [];
      RenderedStart(paint, Look(), scale, ring.contents);
      match Operation(command)
      case 1 => units := FinishDecode();
      case 2 => SetQuantTables();
      case 3 => SetScaleTable();
      case _ => receiving := false;
    }

    method FinishDecode() returns (ghost units: Units)
      requires Valid() && Operation(command) == 1
      modifies this`count, this`decodePos, this`receiving, this`remaining, params, ring, ring.output
      ensures Valid() && Fed(State(), units) == Finish(old(State()))
      ensures ring.contents == Appended(old(ring.contents), RenderedAll(paint, Look(), scale, units))
    {
      units := DecodeNow(true);
      receiving, remaining := false, 0;
    }

    method SetQuantTables()
      requires Valid() && Operation(command) == 2
      modifies this`tables, this`receiving
      ensures Valid() && Fed(State(), []) == Finish(old(State()))
    {
      var uv := if command % 2 == 1 then QuantFrom(params[..count], 64) else tables.uv;
      tables := Tables(QuantFrom(params[..count], 0), uv);
      receiving := false;
    }

    method SetScaleTable()
      requires Valid() && Operation(command) == 3
      modifies this`scale, this`receiving
      ensures Valid() && Fed(State(), []) == Finish(old(State()))
    {
      scale := ScaleFrom(params[..count], scale, Min(count, COEFFICIENTS));
      receiving := false;
    }

    method StartCommand(w: Word) returns (ghost units: Units)
      requires Valid()
      modifies this, params, ring, ring.output
      ensures Valid() && Fed(State(), units) == Start(old(State()), w)
      ensures ring.contents == Appended(old(ring.contents), RenderedAll(paint, Look(), old(scale), units))
      ensures dmaRead == old(dmaRead) && dmaCount == old(dmaCount)
    {
      Accept(w);
      units := [];
      RenderedStart(paint, Look(), scale, ring.contents);
      if !receiving {
        units := FinishCommand();
      }
    }

    method Accept(w: Word)
      requires Valid()
      modifies this`command, this`count, this`decodePos, this`remaining, this`receiving
      ensures Valid() && State() == Accepted(old(State()), w)
    {
      command, count, decodePos := w, 0, 0;
      remaining := WordsExpected(w);
      receiving := remaining != 0;
    }

    /** Keep a parameter word, if there is room. */
    method Store(w: Word)
      requires Valid()
      modifies this`count, params, this`remaining
      ensures Valid() && State() == Received(old(State()), w)
    {
      if count + 2 <= PARAM_CAP {
        params[count] := Low(w);
        params[count + 1] := High(w);
        count := count + 2;
      }
      if remaining > 0 {
        remaining := remaining - 1;
      }
    }

    /** One word to the command port. */
    method Write(w: Word) returns (ghost units: Units)
      requires Valid()
      modifies this, params, ring, ring.output
      ensures Valid() && Fed(State(), units) == Feed(old(State()), w)
      ensures ring.contents == Appended(old(ring.contents), RenderedAll(paint, Look(), old(scale), units))
      ensures dmaRead == old(dmaRead) && dmaCount == old(dmaCount)
    {
      if !receiving {
        units := StartCommand(w);
        return;
      }
      Store(w);
      units := [];
      RenderedStart(paint, Look(), scale, ring.contents);
      if remaining == 0 {
        units := FinishCommand();
      } else if Operation(command) == 1 {
        units := DecodeNow(false);
      }
    }

    /** One word of a decode command, with the account of those before it. */
    method WriteNext(w: Word, ghost ws: seq<Word>, ghost i: nat, ghost start: Codec, ghost before: seq<Word>,
                     ghost units: Units)
      returns (ghost longer: Units)
      requires Valid() && Decoding(start) && |ws| == start.remaining && i < |ws| && w == ws[i] && |before| <= RING_CAP
      requires Fed(State(), units) == FeedAll(start, ws[..i])
      requires ring.contents == Appended(before, RenderedAll(paint, start.Look(), start.scale, units))
      modifies this, params, ring, ring.output
      ensures Valid() && Fed(State(), longer) == FeedAll(start, ws[..i + 1])
      ensures ring.contents == Appended(before, RenderedAll(paint, start.Look(), start.scale, longer))
      ensures dmaRead == old(dmaRead) && dmaCount == old(dmaCount)
    {
      StreamStep(start, ws, i);
      ghost var more;
      more := Write(w);
      JoinMore(paint, start.Look(), start.scale, before, units, more);
      longer := units + more;
    }

    /** A DMA block transfer of all of a decode command's parameters. What reaches the output ring is what one
        decode of the whole stream presents, as far as the ring has room. */
    method WriteStream(ws: seq<Word>) returns (ghost units: Units)
      requires Valid() && Decoding(State()) && |ws| == remaining
      modifies this, params, ring, ring.output
      ensures Valid() && !receiving && command == old(command) && dmaRead == old(dmaRead) && dmaCount == old(dmaCount)
      ensures units == Available(old(Look().Kind()), old(tables), Halves(ws), true).units
      ensures ring.contents == Appended(old(ring.contents), RenderedAll(paint, old(Look()), old(scale), units))
    {
      ghost var start, before := State(), ring.contents;
      var i := 0;
      units := [];
      RenderedStart(paint, start.Look(), start.scale, before);
      while i < |ws|
        invariant 0 <= i <= |ws| && Valid() && Fed(State(), units) == FeedAll(start, ws[..i])
        invariant ring.contents == Appended(before, RenderedAll(paint, start.Look(), start.scale, units))
        invariant dmaRead == old(dmaRead) && dmaCount == old(dmaCount)
      {
        units := WriteNext(ws[i], ws, i, start, before, units);
        i := i + 1;
      }
      assert ws[..|ws|] == ws;
      StreamingIsBatch(start, ws);
    }

    // ---- The output port ----

    /** The words waiting in the staging buffer. */
    ghost function Waiting(): seq<Word>
      reads this, dmaOutput
      requires dmaOutput.Length == STAGE_CAP && dmaRead + dmaCount <= STAGE_CAP
    {
      dmaOutput[dmaRead..dmaRead + dmaCount]
    }

    /** One word for the processor: the oldest one, or 0 when there is none. */
    method CpuRead() returns (w: Word)
      requires Valid()
      modifies ring
      ensures Valid()
      ensures if old(ring.contents) == [] then w == 0 && ring.contents == []
              else [w] + ring.contents == old(ring.contents)
      ensures ring.emptyDelay == if |old(ring.contents)| == 1 then 1 else old(ring.emptyDelay)
    {
      w := ring.Pop(true);
    }

    /** The status bit for no output: the first read after the processor has taken the last word still sees some. */
    method OutputEmpty() returns (empty: bool)
      requires Valid()
      modifies ring`emptyDelay
      ensures Valid() && ring.contents == old(ring.contents)
      ensures empty <==> ring.contents == [] && dmaCount == 0 && old(ring.emptyDelay) == 0
      ensures ring.emptyDelay == if old(ring.emptyDelay) > 0 then old(ring.emptyDelay) - 1 else 0
    {
      empty := ring.count == 0 && dmaCount == 0 && ring.emptyDelay == 0;
      if ring.emptyDelay > 0 { ring.emptyDelay := ring.emptyDelay - 1; }
    }

    /** Take n words off the ring, as bytes. */
    method TakeBytes(n: nat) returns (raw: seq<Byte>)
      requires Valid() && n <= ring.count
      modifies ring
      ensures Valid() && raw == Unpacked(old(ring.contents)[..n], n) && ring.contents == old(ring.contents)[n..]
    {
      UnpackedPrefix(ring.contents, n, n);
      raw := [];
      var i := 0;
      while i < n
        invariant 0 <= i <= n && Valid()
        invariant raw == Unpacked(old(ring.contents), i) && ring.contents == old(ring.contents)[i..]
      {
        var w := ring.Pop(false);
        assert w == old(ring.contents)[i];
        raw := raw + [ByteOf(w, 0), ByteOf(w, 1), ByteOf(w, 2), ByteOf(w, 3)];
        i := i + 1;
      }
    }

    /** Move every pixel of a macroblock to its place in the raster. */
    method Reorder(raw: seq<Byte>, size: nat) returns (ordered: seq<Byte>)
      requires (size == 2 || size == 3) && |raw| == 256 * size
      ensures ordered == Reordered(raw, size, 256 * size)
    {
      ordered := [];
      var d := 0;
      while d < 256
        invariant 0 <= d <= 256 && ordered == Reordered(raw, size, PixelStart(size, d, 0))
      {
        var from := PixelStart(size, SourcePixel(d), 0);
        ReorderedGrows(raw, size, d);
        ordered := ordered + raw[from..from + size];
        d := d + 1;
      }
    }

    method Load(bytes: seq<Byte>, n: nat)
      requires Valid() && 4 * n == |bytes| && n <= STAGE_CAP
      modifies this`dmaRead, this`dmaCount, dmaOutput
      ensures Valid() && Waiting() == Packed(bytes, n)
    {
      var i := 0;
      while i < n
        invariant 0 <= i <= n && Valid()
        invariant forall k :: 0 <= k < i ==> dmaOutput[k] == PackedWord(bytes, k)
      {
        dmaOutput[i] := PackedWord(bytes, i);
        i := i + 1;
      }
      dmaRead, dmaCount := 0, n;
    }

    /** Bring the next macroblock into the staging buffer in raster order, once all of it is there. */
    method StageMacroblock() returns (ok: bool)
      requires Valid() && Look().Kind() == Colour && dmaCount == 0
      modifies this`dmaRead, this`dmaCount, dmaOutput, ring
      ensures Valid() && (ok <==> |old(ring.contents)| >= WordCount(Look()))
      ensures ok ==> var n := WordCount(Look());
                     Waiting() == Staged(old(ring.contents)[..n], PixelSize(Look()))
                     && ring.contents == old(ring.contents)[n..]
      ensures !ok ==> Waiting() == [] && ring.contents == old(ring.contents)
    {
      var size, n := PixelSize(Look()), WordCount(Look());
      WholeUnit(Look());
      if ring.count < n { return false; }
      MoveMacroblock(size, n);
      ok := true;
    }

    method MoveMacroblock(size: nat, n: nat)
      requires Valid() && (size == 2 || size == 3) && n == 64 * size && n <= ring.count
      modifies this`dmaRead, this`dmaCount, dmaOutput, ring
      ensures Valid() && ring.contents == old(ring.contents)[n..]
      ensures Waiting() == Staged(old(ring.contents)[..n], size)
    {
      var raw := TakeBytes(n);
      var ordered := Reorder(raw, size);
      Load(ordered, n);
    }

    /** One word for DMA. Colour macroblocks come whole and in raster order; anything less gives 0. */
    method DmaRead() returns (w: Word)
      requires Valid()
      modifies this`dmaRead, this`dmaCount, dmaOutput, ring
      ensures Valid()
      ensures Look().Kind() == Mono ==>
                if old(ring.contents) == [] then w == 0 && ring.contents == []
                else [w] + ring.contents == old(ring.contents)
      ensures Look().Kind() == Colour ==>
                if old(Upcoming()) == [] then
                  w == 0 && Upcoming() == [] && ring.contents == old(ring.contents)
                else [w] + Upcoming() == old(Upcoming()) && (old(InMacroblocks()) ==> InMacroblocks())
    {
      if Look().Kind() == Mono {
        w := ring.Pop(false);
      } else {
        w := ReadColour();
      }
    }

    /** The words that DMA reads are still to give: those staged, then each whole macroblock of the ring in raster
        order. */
    ghost function Upcoming(): seq<Word>
      reads this, ring, dmaOutput
      requires dmaOutput.Length == STAGE_CAP && dmaRead + dmaCount <= STAGE_CAP
    {
      Waiting() + StagedAll(PixelSize(Look()), ring.contents)
    }

    /** No part of a macroblock is in the ring. */
    ghost predicate InMacroblocks()
      reads this, ring
    {
      Whole(PixelSize(Look()), ring.contents)
    }

    method ReadColour() returns (w: Word)
      requires Valid() && Look().Kind() == Colour
      modifies this`dmaRead, this`dmaCount, dmaOutput, ring
      ensures Valid()
      ensures if old(Upcoming()) == [] then w == 0 && Upcoming() == [] && ring.contents == old(ring.contents)
              else [w] + Upcoming() == old(Upcoming())
      ensures old(InMacroblocks()) ==> InMacroblocks()
    {
      if dmaCount == 0 {
        var ok := StageNext();
        if !ok { return 0; }
      }
      ghost var waiting, rest := Waiting(), StagedAll(PixelSize(Look()), ring.contents);
      w := NextWaiting();
      Associate([w], Waiting(), rest);
    }

    /** Staging changes nothing of what is still to come. */
    method StageNext() returns (ok: bool)
      requires Valid() && Look().Kind() == Colour && dmaCount == 0
      modifies this`dmaRead, this`dmaCount, dmaOutput, ring
      ensures Valid() && Upcoming() == old(Upcoming()) && (ok <==> dmaCount > 0) && (ok <==> Upcoming() != [])
      ensures !ok ==> ring.contents == old(ring.contents)
      ensures old(InMacroblocks()) ==> InMacroblocks()
    {
      ghost var before, size := ring.contents, PixelSize(Look());
      ok := StageMacroblock();
      WholeUnit(Look());
      if ok {
        assert StagedAll(size, before) == Staged(before[..64 * size], size) + StagedAll(size, before[64 * size..]);
        assert [] + StagedAll(size, before) == StagedAll(size, before);
      }
    }

    /** A DMA block transfer out of the decoder. */
    method ReadStream(n: nat) returns (ws: seq<Word>)
      requires Valid() && Look().Kind() == Colour && n <= |Upcoming()|
      modifies this`dmaRead, this`dmaCount, dmaOutput, ring
      ensures Valid() && ws + Upcoming() == old(Upcoming()) && |ws| == n
      ensures old(InMacroblocks()) ==> InMacroblocks()
    {
      ws := [];
      var i := 0;
      assert [] + Upcoming() == Upcoming();
      while i < n
        invariant 0 <= i <= n && Valid() && |ws| == i && ws + Upcoming() == old(Upcoming())
        invariant old(InMacroblocks()) ==> InMacroblocks()
      {
        ghost var rest := Upcoming();
        var w := DmaRead();
        Associate(ws, [w], Upcoming());
        ws := ws + [w];
        i := i + 1;
      }
    }

    /** A colour command streamed into an empty decoder and read out by DMA: the raster words of all its macroblocks,
        in order, and nothing is left. The ring must have room for them. */
    method StreamThenRead(ws: seq<Word>, n: nat) returns (out: seq<Word>, ghost units: Units)
      requires Valid() && Decoding(State()) && |ws| == remaining && Look().Kind() == Colour
      requires ring.contents == [] && dmaCount == 0
      requires var all := Available(Colour, tables, Halves(ws), true).units;
               n == |RenderedAll(paint, Look(), scale, all)| <= RING_CAP
      modifies this, params, ring, ring.output, dmaOutput
      ensures Valid() && units == Available(Colour, old(tables), Halves(ws), true).units
      ensures out == RasterAll(paint, old(Look()), old(scale), units) && |out| == n
      ensures ring.contents == [] && dmaCount == 0
    {
      units := WriteStream(ws);
      ghost var all := RenderedAll(paint, Look(), old(scale), units);
      NothingLostIffRoom([], all);
      StagedRendered(paint, Look(), old(scale), units);
      RasterLength(paint, Look(), old(scale), units);
      NothingWaiting(all);
      out := ReadStream(n);
      assert out + Upcoming() == RasterAll(paint, Look(), old(scale), units);
      NothingLeft();
    }

    lemma NothingLeft()
      requires Valid() && InMacroblocks() && Upcoming() == []
      ensures ring.contents == [] && dmaCount == 0
    {
      assert |Upcoming()| == |Waiting()| + |StagedAll(PixelSize(Look()), ring.contents)|;
    }

    lemma NothingWaiting(all: seq<Word>)
      requires Valid() && Look().Kind() == Colour && dmaCount == 0 && ring.contents == [] + all
      ensures Upcoming() == StagedAll(PixelSize(Look()), all) && (Whole(PixelSize(Look()), all) ==> InMacroblocks())
    {
      assert [] + all == all;
      assert [] + StagedAll(PixelSize(Look()), all) == StagedAll(PixelSize(Look()), all);
    }

    method NextWaiting() returns (w: Word)
      requires Valid() && dmaCount > 0
      modifies this`dmaRead, this`dmaCount
      ensures Valid() && [w] + Waiting() == old(Waiting())
    {
      w := dmaOutput[dmaRead];
      dmaRead, dmaCount := dmaRead + 1, dmaCount - 1;
    }
  }
}
