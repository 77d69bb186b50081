/** Moving rectangles in and out of video memory: uploads, downloads and copies, all of which wrap round
    the edges of the memory.
 */
module VramTransfer {

  import opened Arith
  import opened Edges
  import opened Raster
  import opened Words

  const CELLS := VRAM_W * VRAM_H

  // ---- Rectangles and the order of their pixels ----

  datatype Rect = Rect(x: nat, y: nat, w: nat, h: nat)
  {
    predicate Valid() { 0 < w && 0 < h }

    /** No larger than the memory, so no two of its pixels share a cell. */
    predicate Fits() { 0 < w <= VRAM_W && 0 < h <= VRAM_H }

    function Size(): nat { w * h }

    /** Two pixels to a word. */
    function Words(): nat { (Size() + 1) / 2 }

    /** Pixel k in reading order. */
    function Pixel(k: nat): Point
      requires 0 < w
    {
      Point(x + k % w, y + k / w)
    }

    function CellAt(k: nat): (a: nat)
      requires 0 < w
      ensures a < CELLS
    {
      Address(Pixel(k))
    }
  }

  function RectOf(origin: Word, size: Word): Rect {
    Rect(origin % 0x400, origin / 0x1_0000 % 0x200, size % 0x1_0000, size / 0x1_0000)
  }

  /** The two words of a transfer: column and row, of which the memory's ten and nine bits count, then width and
      height. */
  lemma RectFields(x: Half, y: Half, w: Half, h: Half)
    ensures RectOf(Joined(x, y), Joined(w, h)) == Rect(x % VRAM_W, y % VRAM_H, w, h)
  {
    HalvesOf(x, y);
    HalvesOf(w, h);
    WholeColumns(x, y);
  }

  lemma HalvesOf(low: Half, high: Half)
    ensures Joined(low, high) % 0x1_0000 == low && Joined(low, high) / 0x1_0000 == high
  {
  }

  lemma WholeColumns(low: Half, high: Half)
    ensures Joined(low, high) % 0x400 == low % 0x400
  {
    AddMultiple(low, 0x400, 64 * high);
    assert low + 0x1_0000 * high == low + 64 * high * 0x400;
  }

  lemma RowBound(k: nat, w: nat, h: nat)
    requires 0 < w
    ensures k < w * h <==> k / w < h
  {
    var q := k / w;
    FloorDiv(k, w);
    if k < w * h && q >= h { MulMono(h, q, w); }
    if q < h { MulMono(q + 1, h, w); }
  }

  /** One pixel further: the next column, or the next row. */
  lemma NextPixel(k: nat, w: nat)
    requires 0 < w
    ensures if k % w + 1 >= w then (k + 1) % w == 0 && (k + 1) / w == k / w + 1
            else (k + 1) % w == k % w + 1 && (k + 1) / w == k / w
  {
    AddDivMod(k, w, 1);
  }

  lemma SameColumnAndRow(i: nat, j: nat, w: nat)
    requires 0 < w && i % w == j % w && i / w == j / w
    ensures i == j
  {
    assert i == w * (i / w) + i % w;
    assert j == w * (j / w) + j % w;
  }

  lemma ColumnBound(k: nat, w: nat)
    requires 0 < w
    ensures 0 <= k % w < w && 0 <= k / w
  {
  }

  lemma CellsDiffer(r: Rect, i: nat, j: nat)
    requires r.Fits() && i < r.Size() && j < r.Size() && r.CellAt(i) == r.CellAt(j)
    ensures i == j
  {
    RowBound(i, r.w, r.h);
    RowBound(j, r.w, r.h);
    ColumnBound(i, r.w);
    ColumnBound(j, r.w);
    SamePoint(r.x, r.y, i % r.w, i / r.w, j % r.w, j / r.w);
    SameColumnAndRow(i, j, r.w);
  }

  lemma SamePoint(x: int, y: int, a: int, b: int, c: int, d: int)
    requires 0 <= a < VRAM_W && 0 <= c < VRAM_W && 0 <= b < VRAM_H && 0 <= d < VRAM_H
    requires Address(Point(x + a, y + b)) == Address(Point(x + c, y + d))
    ensures a == c && b == d
  {
    AddressInjective(Point(x + a, y + b), Point(x + c, y + d));
  }

  // ---- Memory after a transfer ----

  /** Memory after the first k pixels of an upload. */
  function Loaded(m: seq<Cell>, r: Rect, data: seq<Cell>, k: nat): (n: seq<Cell>)
    requires |m| == CELLS && r.Valid() && k <= |data|
    ensures |n| == CELLS
  {
    if k == 0 then m else Loaded(m, r, data, k - 1)[r.CellAt(k - 1) := data[k - 1]]
  }

  predicate Outside(r: Rect, cell: nat)
    requires r.Valid()
  {
    forall k :: 0 <= k < r.Size() ==> cell != r.CellAt(k)
  }

  lemma {:induction false} LoadedAt(m: seq<Cell>, r: Rect, data: seq<Cell>, k: nat, i: nat)
    requires |m| == CELLS && r.Fits() && k <= |data| && k <= r.Size() && i < k
    ensures Loaded(m, r, data, k)[r.CellAt(i)] == data[i]
  {
    if i < k - 1 {
      LoadedAt(m, r, data, k - 1, i);
      if r.CellAt(i) == r.CellAt(k - 1) {
        CellsDiffer(r, i, k - 1);
      }
    }
  }

  lemma {:induction false} LoadedOutside(m: seq<Cell>, r: Rect, data: seq<Cell>, k: nat, cell: nat)
    requires |m| == CELLS && r.Valid() && k <= |data| && k <= r.Size() && cell < CELLS && Outside(r, cell)
    ensures Loaded(m, r, data, k)[cell] == m[cell]
  {
    if k > 0 {
      LoadedOutside(m, r, data, k - 1, cell);
    }
  }

  /** An upload puts pixel i of its data in pixel i of the rectangle and changes nothing else. */
  lemma UploadExact(m: seq<Cell>, r: Rect, data: seq<Cell>, i: nat, cell: nat)
    requires |m| == CELLS && r.Fits() && r.Size() <= |data| && i < r.Size() && cell < CELLS
    ensures Loaded(m, r, data, r.Size())[r.CellAt(i)] == data[i]
    ensures Outside(r, cell) ==> Loaded(m, r, data, r.Size())[cell] == m[cell]
  {
    LoadedAt(m, r, data, r.Size(), i);
    if Outside(r, cell) {
      LoadedOutside(m, r, data, r.Size(), cell);
    }
  }

  // ---- Words ----

  /** Word i of a download. */
  function StoredWord(m: seq<Cell>, r: Rect, i: nat): Word
    requires |m| == CELLS && r.Valid()
  {
    Joined(m[r.CellAt(2 * i)], m[r.CellAt(2 * i + 1)])
  }

  /** Reading back the rectangle just uploaded gives the same words; only the unused upper half of the last
      one may differ, when the number of pixels is odd. */
  lemma UploadThenDownload(m: seq<Cell>, r: Rect, ws: seq<Word>, i: nat)
    requires |m| == CELLS && r.Fits() && |ws| == r.Words() && i < |ws|
    ensures var w := StoredWord(Loaded(m, r, Halves(ws), r.Size()), r, i);
            if 2 * i + 1 < r.Size() then w == ws[i] else Low(w) == Low(ws[i])
  {
    HalvesAt(ws, i);
    LoadedAt(m, r, Halves(ws), r.Size(), 2 * i);
    if 2 * i + 1 < r.Size() {
      LoadedAt(m, r, Halves(ws), r.Size(), 2 * i + 1);
    }
    JoinedHalves(ws[i]);
  }

  // ---- Copies ----

  /** Memory after the first k pixels of a copy whose source pixels were read beforehand. */
  function Copied(m: seq<Cell>, s: Settings, r: Rect, data: seq<Cell>, k: nat): (n: seq<Cell>)
    requires |m| == CELLS && r.Valid() && k <= |data|
    ensures |n| == CELLS
  {
    if k == 0 then m
    else
      var before := Copied(m, s, r, data, k - 1);
      var cell := r.CellAt(k - 1);
      before[cell := Drawn1(s, before[cell], data[k - 1], false)]
  }

  lemma {:induction false} CopiedUntouched(m: seq<Cell>, s: Settings, r: Rect, data: seq<Cell>, k: nat, cell: nat)
    requires |m| == CELLS && r.Valid() && k <= |data| && cell < CELLS
    requires forall i :: 0 <= i < k ==> cell != r.CellAt(i)
    ensures Copied(m, s, r, data, k)[cell] == m[cell]
  {
    if k > 0 {
      CopiedUntouched(m, s, r, data, k - 1, cell);
    }
  }

  lemma {:induction false} CopiedAt(m: seq<Cell>, s: Settings, r: Rect, data: seq<Cell>, k: nat, i: nat)
    requires |m| == CELLS && r.Fits() && k <= |data| && k <= r.Size() && i < k
    ensures Copied(m, s, r, data, k)[r.CellAt(i)] == Drawn1(s, m[r.CellAt(i)], data[i], false)
  {
    if i < k - 1 {
      CopiedAt(m, s, r, data, k - 1, i);
      if r.CellAt(i) == r.CellAt(k - 1) {
        CellsDiffer(r, i, k - 1);
      }
    } else {
      forall j | 0 <= j < i ensures r.CellAt(i) != r.CellAt(j) {
        if r.CellAt(i) == r.CellAt(j) {
          CellsDiffer(r, i, j);
        }
      }
      CopiedUntouched(m, s, r, data, i, r.CellAt(i));
    }
  }

  /** A copy done all at once: each destination cell from its own old value and the old value of its source. */
  ghost predicate IsCopy(before: seq<Cell>, after: seq<Cell>, s: Settings, src: Rect, dst: Rect)
    requires |before| == CELLS && |after| == CELLS && src.Valid() && dst.Valid()
  {
    && (forall i :: 0 <= i < dst.Size() ==>
          after[dst.CellAt(i)] == Drawn1(s, before[dst.CellAt(i)], before[src.CellAt(i)], false))
    && (forall cell :: 0 <= cell < CELLS && Outside(dst, cell) ==> after[cell] == before[cell])
  }

  /** Whatever the overlap and the mask settings, a copy is the one done all at once. */
  lemma CopyIsSimultaneous(m: seq<Cell>, s: Settings, src: Rect, dst: Rect, data: seq<Cell>)
    requires |m| == CELLS && dst.Fits() && src.w == dst.w && src.h == dst.h
    requires |data| == dst.Size() && forall i :: 0 <= i < dst.Size() ==> data[i] == m[src.CellAt(i)]
    ensures IsCopy(m, Copied(m, s, dst, data, dst.Size()), s, src, dst)
  {
    forall i | 0 <= i < dst.Size()
      ensures Copied(m, s, dst, data, dst.Size())[dst.CellAt(i)]
              == Drawn1(s, m[dst.CellAt(i)], m[src.CellAt(i)], false)
    {
      CopiedAt(m, s, dst, data, dst.Size(), i);
    }
    forall cell | 0 <= cell < CELLS && Outside(dst, cell)
      ensures Copied(m, s, dst, data, dst.Size())[cell] == m[cell]
    {
      CopiedUntouched(m, s, dst, data, dst.Size(), cell);
    }
  }

  /** And only one memory can be that copy. */
  lemma CopyIsUnique(m: seq<Cell>, a: seq<Cell>, b: seq<Cell>, s: Settings, src: Rect, dst: Rect)
    requires |m| == CELLS && |a| == CELLS && |b| == CELLS && src.Valid() && dst.Valid()
    requires IsCopy(m, a, s, src, dst) && IsCopy(m, b, s, src, dst)
    ensures a == b
  {
    forall cell | 0 <= cell < CELLS
      ensures a[cell] == b[cell]
    {
      if !Outside(dst, cell) {
        var k :| 0 <= k < dst.Size() && cell == dst.CellAt(k);
        assert a[dst.CellAt(k)] == b[dst.CellAt(k)];
      }
    }
  }
}
