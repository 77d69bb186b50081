/** The macroblock decoder's output: packing pixels into words, the output ring, and the reordering of a
    colour macroblock for DMA.

    A unit's pixels come in block order, eight by eight. The inverse transform and the colour conversion
    are a parameter: they give each pixel a number, and everything here is about where its bytes go.
 */
module MdecOutput {

  import opened MdecParse
  import opened MdecStream
  import opened Words

  const RING_CAP := 0x10_0000

  // ---- A unit as bytes and words ----

  function Pixels(look: Look): nat { if look.Kind() == Mono then 64 else 256 }

  /** Bytes in one unit: half a byte, one, three or two for each pixel. */
  function ByteCount(look: Look): nat {
    if look.depth == 0 then 32 else if look.depth == 1 then 64 else if look.depth == 2 then 768 else 512
  }

  function WordCount(look: Look): nat { ByteCount(look) / 4 }

  /** Byte e of a colour pixel. */
  function PixelByte(look: Look, value: nat, e: nat): Byte {
    if look.depth == 2 then
      (if e == 0 then value % 256 else if e == 1 then value / 0x100 % 256 else value / 0x1_0000 % 256)
    else if e == 0 then value % 256
    else value / 0x100 % 128 + if look.bit15 then 128 else 0
  }

  function PixelSize(look: Look): (r: nat)
    ensures r == 2 || r == 3
  {
    if look.depth == 2 then 3 else 2
  }

  /** Byte j of a unit whose pixels have these values. */
  function UnitByte(look: Look, values: seq<nat>, j: nat): Byte
    requires |values| == Pixels(look) && j < ByteCount(look)
  {
    if look.depth == 0 then values[2 * j] % 16 + 16 * (values[2 * j + 1] % 16)
    else if look.depth == 1 then values[j] % 256
    else if look.depth == 2 then PixelByte(look, values[j / 3], j % 3)
    else PixelByte(look, values[j / 2], j % 2)
  }

  function Little(b0: Byte, b1: Byte, b2: Byte, b3: Byte): Word {
    b0 + 0x100 * b1 + 0x1_0000 * b2 + 0x100_0000 * b3
  }

  function ByteOf(w: Word, e: nat): Byte {
    if e == 0 then w % 256 else if e == 1 then w / 0x100 % 256 else if e == 2 then w / 0x1_0000 % 256
    else w / 0x100_0000
  }

  lemma LittleBytes(b0: Byte, b1: Byte, b2: Byte, b3: Byte)
    ensures var w := Little(b0, b1, b2, b3);
            ByteOf(w, 0) == b0 && ByteOf(w, 1) == b1 && ByteOf(w, 2) == b2 && ByteOf(w, 3) == b3
  {
    var w := Little(b0, b1, b2, b3);
    var r1 := b1 + 0x100 * b2 + 0x1_0000 * b3;
    var r2 := b2 + 0x100 * b3;
    assert w == b0 + 0x100 * r1 && r1 == b1 + 0x100 * r2;
    assert w / 0x100 == r1 && r1 / 0x100 == r2;
    assert w / 0x1_0000 == r2;
  }

  /** The first n bytes of a unit. */
  function UnitBytes(look: Look, values: seq<nat>, n: nat): (r: seq<Byte>)
    requires |values| == Pixels(look) && n <= ByteCount(look)
    ensures |r| == n && forall j :: 0 <= j < n ==> r[j] == UnitByte(look, values, j)
  {
    if n == 0 then [] else UnitBytes(look, values, n - 1) + [UnitByte(look, values, n - 1)]
  }

  function PackedWord(bytes: seq<Byte>, i: nat): Word
    requires 4 * i + 4 <= |bytes|
  {
    Little(bytes[4 * i], bytes[4 * i + 1], bytes[4 * i + 2], bytes[4 * i + 3])
  }

  /** The first n words of a byte sequence. */
  function Packed(bytes: seq<Byte>, n: nat): (r: seq<Word>)
    requires 4 * n <= |bytes|
    ensures |r| == n && forall i :: 0 <= i < n ==> r[i] == PackedWord(bytes, i)
  {
    if n == 0 then [] else Packed(bytes, n - 1) + [PackedWord(bytes, n - 1)]
  }

  /** The bytes of the first n words. */
  function Unpacked(words: seq<Word>, n: nat): (r: seq<Byte>)
    requires n <= |words|
    ensures |r| == 4 * n
  {
    if n == 0 then []
    else
      var w := words[n - 1];
      Unpacked(words, n - 1) + [ByteOf(w, 0), ByteOf(w, 1), ByteOf(w, 2), ByteOf(w, 3)]
  }

  lemma PackedWordBytes(bytes: seq<Byte>, i: nat)
    requires 4 * i + 4 <= |bytes|
    ensures var w := PackedWord(bytes, i);
            bytes[..4 * i + 4] == bytes[..4 * i] + [ByteOf(w, 0), ByteOf(w, 1), ByteOf(w, 2), ByteOf(w, 3)]
  {
    LittleBytes(bytes[4 * i], bytes[4 * i + 1], bytes[4 * i + 2], bytes[4 * i + 3]);
  }

  lemma {:induction false} UnpackedIsInverse(bytes: seq<Byte>, n: nat, m: nat)
    requires 4 * n <= |bytes| && m <= n
    ensures Unpacked(Packed(bytes, n), m) == bytes[..4 * m]
  {
    if m > 0 {
      var i := m - 1;
      UnpackedIsInverse(bytes, n, i);
      PackedWordBytes(bytes, i);
    }
  }

  // ---- A command's output ----

  /** The inverse transform and the colour conversion: the number of pixel i of a unit. */
  type Painter = (Look, Coefficients, seq<Coefficients>, nat) -> nat

  function Painted(paint: Painter, look: Look, scale: Coefficients, unit: seq<Coefficients>, n: nat): (r: seq<nat>)
    ensures |r| == n && forall i :: 0 <= i < n ==> r[i] == paint(look, scale, unit, i)
  {
    if n == 0 then [] else Painted(paint, look, scale, unit, n - 1) + [paint(look, scale, unit, n - 1)]
  }

  function Presented(paint: Painter, look: Look, scale: Coefficients, unit: seq<Coefficients>): (r: seq<Byte>)
    ensures |r| == ByteCount(look)
  {
    UnitBytes(look, Painted(paint, look, scale, unit, Pixels(look)), ByteCount(look))
  }

  function Rendered(paint: Painter, look: Look, scale: Coefficients, unit: seq<Coefficients>): (r: seq<Word>)
    ensures |r| == WordCount(look)
  {
    Packed(Presented(paint, look, scale, unit), WordCount(look))
  }

  function RenderedAll(paint: Painter, look: Look, scale: Coefficients, units: Units): seq<Word> {
    if units == [] then []
    else
      var m := |units| - 1;
      RenderedAll(paint, look, scale, units[..m]) + Rendered(paint, look, scale, units[m])
  }

  lemma {:induction false} RenderedJoin(paint: Painter, look: Look, scale: Coefficients, a: Units, b: Units)
    ensures RenderedAll(paint, look, scale, a + b)
            == RenderedAll(paint, look, scale, a) + RenderedAll(paint, look, scale, b)
  {
    if b == [] {
      assert a + b == a;
    } else {
      var m := |b| - 1;
      RenderedJoin(paint, look, scale, a, b[..m]);
      assert (a + b)[..|a + b| - 1] == a + b[..m];
      Associate(RenderedAll(paint, look, scale, a), RenderedAll(paint, look, scale, b[..m]),
              Rendered(paint, look, scale, b[m]));
    }
  }

  // ---- The ring as a queue of bounded length ----

  /** A full ring ignores what is pushed. */
  function Appended(q: seq<Word>, ws: seq<Word>): (r: seq<Word>)
    requires |q| <= RING_CAP
    ensures |r| <= RING_CAP
  {
    q + ws[..Min(|ws|, RING_CAP - |q|)]
  }

  lemma AppendedJoin(q: seq<Word>, a: seq<Word>, b: seq<Word>)
    requires |q| <= RING_CAP
    ensures Appended(Appended(q, a), b) == Appended(q, a + b)
  {
  }

  /** Nothing is lost exactly when there is room. */
  lemma NothingLostIffRoom(q: seq<Word>, ws: seq<Word>)
    requires |q| <= RING_CAP
    ensures Appended(q, ws) == q + ws <==> |q| + |ws| <= RING_CAP
  {
    if |q| + |ws| <= RING_CAP {
      assert ws[..|ws|] == ws;
    } else {
      assert |Appended(q, ws)| == RING_CAP;
    }
  }

  /** The slot k places after the read position. */
  function At(read: nat, k: nat): (r: nat)
    requires read < RING_CAP && k < RING_CAP
    ensures r < RING_CAP
  {
    if read + k < RING_CAP then read + k else read + k - RING_CAP
  }

  class OutputRing {
    const output: array<Word>
    var read: nat
    var write: nat
    var count: nat
    var emptyDelay: nat // status reads that still see the ring as not empty
    ghost var contents: seq<Word> // oldest first

    ghost predicate Valid()
      reads this, output
    {
      output.Length == RING_CAP && read < RING_CAP && write < RING_CAP && |contents| == count <= RING_CAP
      && write == (read + count) % RING_CAP
      && forall k :: 0 <= k < count ==> contents[k] == output[At(read, k)]
    }

    constructor ()
      ensures Valid() && contents == [] && fresh(output)
    {
      output := new Word[RING_CAP](_ => 0);
      read, write, count, emptyDelay, contents := 0, 0, 0, 0, [];
    }

    /** Add a word at the end, or drop it if the ring is full. */
    method Push(w: Word)
      requires Valid()
      modifies this, output
      ensures Valid() && contents == Appended(old(contents), [w])
      ensures emptyDelay == if |old(contents)| >= RING_CAP then old(emptyDelay) else 0
    {
      if count >= RING_CAP { return; }
      emptyDelay := 0;
      output[write] := w;
      write := (write + 1) % RING_CAP;
      count := count + 1;
      contents := contents + [w];
    }

    /** Take the oldest word, or give 0 when there is none. With `delayEmpty`, taking the last word leaves the ring
        looking full for one more status read. */
    method Pop(delayEmpty: bool) returns (w: Word)
      requires Valid()
      modifies this
      ensures Valid()
      ensures emptyDelay == if delayEmpty && |old(contents)| == 1 then 1 else old(emptyDelay)
      ensures if old(contents) == [] then w == 0 && contents == [] else [w] + contents == old(contents)
    {
      w := 0;
      if count > 0 {
        w := output[read];
        read := (read + 1) % RING_CAP;
        count := count - 1;
        contents := contents[1..];
        if delayEmpty && count == 0 { emptyDelay := 1; }
      }
    }
  }

  // ---- Reordering a colour macroblock for DMA ----

  /** Position within a block of 8 by 8. */
  function Cell(block: nat, row: nat, column: nat): nat { block * 64 + row * 8 + column }

  lemma CellParts(block: nat, row: nat, column: nat)
    requires block < 4 && row < 8 && column < 8
    ensures var s := Cell(block, row, column);
            s < 256 && s / 64 == block && s % 64 / 8 == row && s % 8 == column
  {
    var s := Cell(block, row, column);
    assert s % 64 == row * 8 + column;
  }

  /** Where pixel d of the raster stands in block order. */
  function SourcePixel(d: nat): (r: nat)
    requires d < 256
    ensures r < 256
  {
    var x, y := d % 16, d / 16;
    Cell((if x >= 8 then 1 else 0) + (if y >= 8 then 2 else 0), y % 8, x % 8)
  }

  /** Where pixel s of block order stands in the raster. */
  function RasterPixel(s: nat): (r: nat)
    requires s < 256
    ensures r < 256
  {
    var block, row, column := s / 64, s % 64 / 8, s % 8;
    ((if block >= 2 then 8 else 0) + row) * 16 + ((if block % 2 == 1 then 8 else 0) + column)
  }

  /** The reordering loses no pixel. */
  lemma RasterOfSource(d: nat)
    requires d < 256
    ensures RasterPixel(SourcePixel(d)) == d
  {
    var x, y := d % 16, d / 16;
    var right, lower := x >= 8, y >= 8;
    CellParts((if right then 1 else 0) + (if lower then 2 else 0), y % 8, x % 8);
    HalfAndRest(x);
    HalfAndRest(y);
    assert d == y * 16 + x;
  }

  lemma HalfAndRest(x: nat)
    requires x < 16
    ensures (if x >= 8 then 8 else 0) + x % 8 == x
  {
  }

  lemma RowAndColumn(y: nat, x: nat)
    requires x < 16
    ensures (y * 16 + x) / 16 == y && (y * 16 + x) % 16 == x
  {
  }

  lemma EighthParts(high: nat, low: nat)
    requires (high == 0 || high == 8) && low < 8
    ensures (high + low) % 8 == low && (high + low >= 8 <==> high == 8)
  {
  }

  /** Nor does it repeat one. */
  lemma SourceOfRaster(s: nat)
    requires s < 256
    ensures SourcePixel(RasterPixel(s)) == s
  {
    var block, row, column := s / 64, s % 64 / 8, s % 8;
    var left, top := if block % 2 == 1 then 8 else 0, if block >= 2 then 8 else 0;
    RowAndColumn(top + row, left + column);
    EighthParts(left, column);
    EighthParts(top, row);
    assert s == Cell(block, row, column);
  }

  /** A macroblock's pixels, row by row. */
  function Raster(values: seq<nat>, n: nat): (r: seq<nat>)
    requires |values| == 256 && n <= 256
    ensures |r| == n && forall d :: 0 <= d < n ==> r[d] == values[SourcePixel(d)]
  {
    if n == 0 then [] else Raster(values, n - 1) + [values[SourcePixel(n - 1)]]
  }

  /** Where byte e of pixel d stands. */
  function PixelStart(size: nat, d: nat, e: nat): nat { e + if size == 2 then 2 * d else 3 * d }

  /** Where byte j of the reordered macroblock comes from. */
  function SourceByte(size: nat, j: nat): (r: nat)
    requires (size == 2 || size == 3) && j < 256 * size
    ensures r < 256 * size
  {
    PixelStart(size, SourcePixel(j / size), j % size)
  }

  function Reordered(raw: seq<Byte>, size: nat, n: nat): (r: seq<Byte>)
    requires (size == 2 || size == 3) && |raw| == 256 * size && n <= |raw|
    ensures |r| == n && forall j :: 0 <= j < n ==> r[j] == raw[SourceByte(size, j)]
  {
    if n == 0 then [] else Reordered(raw, size, n - 1) + [raw[SourceByte(size, n - 1)]]
  }

  lemma PixelOfByte(size: nat, j: nat)
    requires (size == 2 || size == 3) && j < 256 * size
    ensures j / size < 256 && j % size < size && PixelStart(size, j / size, j % size) == j
  {
  }

  lemma ColourByte(look: Look, values: seq<nat>, q: nat, e: nat)
    requires 2 <= look.depth <= 3 && |values| == 256 && q < 256 && e < PixelSize(look)
    ensures PixelStart(PixelSize(look), q, e) < ByteCount(look)
    ensures UnitByte(look, values, PixelStart(PixelSize(look), q, e)) == PixelByte(look, values[q], e)
  {
    var j := PixelStart(PixelSize(look), q, e);
    if look.depth == 2 {
      assert j / 3 == q && j % 3 == e;
    } else {
      assert j / 2 == q && j % 2 == e;
    }
  }

  lemma ReorderedByteAt(look: Look, values: seq<nat>, j: nat)
    requires 2 <= look.depth <= 3 && |values| == 256 && j < ByteCount(look)
    ensures UnitByte(look, values, SourceByte(PixelSize(look), j)) == UnitByte(look, Raster(values, 256), j)
  {
    var size := PixelSize(look);
    PixelOfByte(size, j);
    var d, e := j / size, j % size;
    ColourByte(look, values, SourcePixel(d), e);
    ColourByte(look, Raster(values, 256), d, e);
  }

  /** What a macroblock's words become on the way to DMA. */
  function Staged(words: seq<Word>, size: nat): (r: seq<Word>)
    requires (size == 2 || size == 3) && |words| == 64 * size
    ensures |r| == |words|
  {
    Packed(Reordered(Unpacked(words, |words|), size, 256 * size), |words|)
  }

  lemma ReorderedAt(look: Look, values: seq<nat>, j: nat)
    requires 2 <= look.depth <= 3 && |values| == 256 && j < ByteCount(look)
    ensures var n := ByteCount(look);
            Reordered(UnitBytes(look, values, n), PixelSize(look), n)[j] == UnitBytes(look, Raster(values, 256), n)[j]
  {
    ReorderedByteAt(look, values, j);
  }

  lemma ReorderedIsRaster(look: Look, values: seq<nat>)
    requires 2 <= look.depth <= 3 && |values| == 256
    ensures var n := ByteCount(look);
            Reordered(UnitBytes(look, values, n), PixelSize(look), n) == UnitBytes(look, Raster(values, 256), n)
  {
    var n := ByteCount(look);
    var a, b := Reordered(UnitBytes(look, values, n), PixelSize(look), n), UnitBytes(look, Raster(values, 256), n);
    forall j | 0 <= j < n
      ensures a[j] == b[j]
    {
      ReorderedAt(look, values, j);
    }
  }

  /** The words DMA reads for a macroblock are those the ring would hold had its pixels been produced in
      raster order: 128 or 192 of them. */
  lemma StagedIsRaster(look: Look, values: seq<nat>)
    requires 2 <= look.depth <= 3 && |values| == 256
    ensures WordCount(look) == (if look.depth == 3 then 128 else 192)
    ensures var n := ByteCount(look);
            Staged(Packed(UnitBytes(look, values, n), WordCount(look)), PixelSize(look))
            == Packed(UnitBytes(look, Raster(values, 256), n), WordCount(look))
  {
    var bytes := UnitBytes(look, values, ByteCount(look));
    UnpackedIsInverse(bytes, WordCount(look), WordCount(look));
    assert bytes[..|bytes|] == bytes;
    ReorderedIsRaster(look, values);
  }

  // ---- Whole streams ----

  /** The whole macroblocks of a sequence of words, each in raster order; `size` is the bytes of a pixel. */
  function StagedAll(size: nat, words: seq<Word>): seq<Word>
    requires size == 2 || size == 3
    decreases |words|
  {
    if |words| < 64 * size then [] else Staged(words[..64 * size], size) + StagedAll(size, words[64 * size..])
  }

  /** The words are whole macroblocks. */
  predicate Whole(size: nat, words: seq<Word>)
    requires size == 2 || size == 3
    decreases |words|
  {
    words == [] || (|words| >= 64 * size && Whole(size, words[64 * size..]))
  }

  /** A macroblock as DMA gives it. */
  function RasterRendered(paint: Painter, look: Look, scale: Coefficients, unit: seq<Coefficients>): (r: seq<Word>)
    requires 2 <= look.depth <= 3
    ensures |r| == WordCount(look)
  {
    Packed(UnitBytes(look, Raster(Painted(paint, look, scale, unit, 256), 256), ByteCount(look)), WordCount(look))
  }

  function RasterAll(paint: Painter, look: Look, scale: Coefficients, units: Units): seq<Word>
    requires 2 <= look.depth <= 3
  {
    if units == [] then []
    else
      var m := |units| - 1;
      RasterAll(paint, look, scale, units[..m]) + RasterRendered(paint, look, scale, units[m])
  }

  lemma StagedOne(size: nat, words: seq<Word>)
    requires (size == 2 || size == 3) && |words| == 64 * size
    ensures StagedAll(size, words) == Staged(words, size) && Whole(size, words)
  {
    assert words[..64 * size] == words && words[64 * size..] == [];
    assert Staged(words, size) + [] == Staged(words, size);
  }

  lemma {:induction false} StagedAllAppends(size: nat, words: seq<Word>, more: seq<Word>)
    requires (size == 2 || size == 3) && Whole(size, words) && |more| == 64 * size
    ensures StagedAll(size, words + more) == StagedAll(size, words) + Staged(more, size) && Whole(size, words + more)
    decreases |words|
  {
    if words == [] {
      StagedOne(size, more);
      NothingBefore(words, more);
      NothingBefore(StagedAll(size, words), Staged(more, size));
    } else {
      var first, rest := words[..64 * size], words[64 * size..];
      StagedAllAppends(size, rest, more);
      CutAppended(words, more, 64 * size);
      StagedFirst(size, words + more, first, rest + more);
      StagedFirst(size, words, first, rest);
      Associate(Staged(first, size), StagedAll(size, rest), Staged(more, size));
    }
  }

  lemma NothingBefore(a: seq<Word>, b: seq<Word>)
    requires a == []
    ensures a + b == b
  {
  }

  lemma CutAppended(a: seq<Word>, b: seq<Word>, n: nat)
    requires n <= |a|
    ensures (a + b)[..n] == a[..n] && (a + b)[n..] == a[n..] + b
  {
  }

  lemma StagedFirst(size: nat, words: seq<Word>, first: seq<Word>, rest: seq<Word>)
    requires (size == 2 || size == 3) && |words| >= 64 * size
    requires first == words[..64 * size] && rest == words[64 * size..]
    ensures StagedAll(size, words) == Staged(first, size) + StagedAll(size, rest)
    ensures Whole(size, words) <==> Whole(size, rest)
  {
  }

  /** What DMA makes of a command's output is its macroblocks in raster order. */
  lemma {:induction false} StagedRendered(paint: Painter, look: Look, scale: Coefficients, units: Units)
    requires 2 <= look.depth <= 3
    ensures StagedAll(PixelSize(look), RenderedAll(paint, look, scale, units)) == RasterAll(paint, look, scale, units)
    ensures Whole(PixelSize(look), RenderedAll(paint, look, scale, units))
  {
    if units != [] {
      var m := |units| - 1;
      StagedRendered(paint, look, scale, units[..m]);
      UnitInRaster(paint, look, scale, units[m]);
      StagedAllAppends(PixelSize(look), RenderedAll(paint, look, scale, units[..m]),
                       Rendered(paint, look, scale, units[m]));
    }
  }

  lemma UnitInRaster(paint: Painter, look: Look, scale: Coefficients, unit: seq<Coefficients>)
    requires 2 <= look.depth <= 3
    ensures WordCount(look) == 64 * PixelSize(look)
    ensures Staged(Rendered(paint, look, scale, unit), PixelSize(look)) == RasterRendered(paint, look, scale, unit)
  {
    StagedIsRaster(look, Painted(paint, look, scale, unit, 256));
  }

  lemma {:induction false} RasterLength(paint: Painter, look: Look, scale: Coefficients, units: Units)
    requires 2 <= look.depth <= 3
    ensures |RasterAll(paint, look, scale, units)| == |RenderedAll(paint, look, scale, units)|
  {
    if units != [] {
      RasterLength(paint, look, scale, units[..|units| - 1]);
    }
  }
}
