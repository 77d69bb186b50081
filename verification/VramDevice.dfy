/** The transfer state machine of the GPU's command port, word by word and with the cursors it keeps.

    A ghost history ties each cursor to the number of pixels moved so far, so that the contracts can be
    stated with the functions of `VramTransfer`.
 */
module VramDevice {

  import opened Arith
  import opened Edges
  import opened Raster
  import opened VramTransfer
  import opened Words

  datatype Mode = Command | ImageLoad | ImageStore

  /** A transfer cursor after k pixels of rows of length w. */
  predicate CursorAt(x: int, y: int, w: nat, k: nat)
    requires 0 < w
  {
    x == k % w && y == k / w
  }

  class TransferPort {
    const vram: array<Cell>
    var settings: Settings
    var mode: Mode
    var latch: Word
    var load: Rect
    var loadX: nat
    var loadY: nat
    var loadWords: nat
    var store: Rect
    var storeX: nat
    var storeY: nat
    var storeWords: nat
    ghost var base: seq<Cell> // video memory when the upload began
    ghost var got: seq<Cell>  // its pixels so far
    ghost var gone: nat       // words downloaded so far

    ghost predicate Loading()
      reads this, vram
    {
      && vram.Length == CELLS && |base| == CELLS && load.Valid() && loadWords > 0
      && |got| + 2 * loadWords == 2 * load.Words() && CursorAt(loadX, loadY, load.w, |got|)
      && vram[..] == Loaded(base, load, got, |got|)
    }

    ghost predicate Storing()
      reads this
    {
      && store.Valid() && storeWords > 0
      && gone + storeWords == store.Words() && CursorAt(storeX, storeY, store.w, 2 * gone)
    }

    ghost predicate Valid()
      reads this, vram
    {
      && vram.Length == CELLS
      && (mode == ImageLoad ==> Loading()) && (mode == ImageStore ==> Storing())
    }

    constructor (s: Settings)
      ensures Valid() && fresh(vram) && mode == Command
    {
      vram := new Cell[CELLS](_ => 0);
      settings, mode, latch := s, Command, 0;
      load, store := Rect(0, 0, 0, 0), Rect(0, 0, 0, 0);
      loadX, loadY, loadWords, storeX, storeY, storeWords := 0, 0, 0, 0, 0, 0;
      base, got, gone := [], [], 0;
    }

    // ---- Uploads ----

    /** An upload command; an empty rectangle starts nothing. */
    method StartLoad(origin: Word, size: Word)
      requires Valid() && mode == Command
      modifies this
      ensures Valid() && settings == old(settings)
      ensures var r := RectOf(origin, size);
              if r.Valid() then
                mode == ImageLoad && load == r && loadWords == r.Words() && base == vram[..] && got == []
              else mode == Command
    {
      var r := RectOf(origin, size);
      if r.w == 0 || r.h == 0 { return; }
      load, loadX, loadY := r, 0, 0;
      base, got := vram[..], [];
      MulPos(r.w, r.h);
      loadWords := (r.w * r.h + 1) / 2;
      mode := ImageLoad;
      StartCursor(r.w);
    }

    /** Put one pixel in place, unless the rectangle is full. */
    method PutPixel(pixel: Cell, ghost k: nat, ghost data: seq<Cell>)
      requires vram.Length == CELLS && |base| == CELLS && load.Valid() && CursorAt(loadX, loadY, load.w, k)
      requires k < |data| && pixel == data[k] && k <= load.Size() && vram[..] == Loaded(base, load, data, k)
      modifies this`loadX, this`loadY, vram
      ensures var n := if k < load.Size() then k + 1 else k;
              vram[..] == Loaded(base, load, data, n) && CursorAt(loadX, loadY, load.w, n)
    {
      RowBound(k, load.w, load.h);
      if loadY >= load.h { return; }
      NextPixel(k, load.w);
      vram[Address(Point(load.x + loadX, load.y + loadY))] := pixel;
      loadX := loadX + 1;
      if loadX >= load.w {
        loadX, loadY := 0, loadY + 1;
      }
    }

    /** One data word of an upload. The word that completes the rectangle returns the port to commands. */
    method LoadWord(w: Word)
      requires Valid() && mode == ImageLoad
      modifies this`mode, this`loadX, this`loadY, this`loadWords, this`got, vram
      ensures Valid() && got == old(got) + [Low(w), High(w)] && loadWords == old(loadWords) - 1
      ensures mode == if old(loadWords) == 1 then Command else ImageLoad
      ensures old(loadWords) == 1 ==> load.Size() <= |got| && vram[..] == Loaded(base, load, got, load.Size())
    {
      ghost var k, longer := |got|, got + [Low(w), High(w)];
      LoadedPrefix(base, load, got, longer, k);
      PutPixel(Low(w), k, longer);
      PutPixel(High(w), k + 1, longer);
      got := longer;
      loadWords := loadWords - 1;
      if loadWords == 0 {
        mode := Command;
      }
    }

    /** A whole upload: it takes exactly as many words as its pixels need. */
    method Upload(origin: Word, size: Word, ws: seq<Word>)
      requires Valid() && mode == Command && RectOf(origin, size).Valid() && |ws| == RectOf(origin, size).Words()
      modifies this, vram
      ensures Valid() && mode == Command
      ensures var r := RectOf(origin, size); vram[..] == Loaded(old(vram[..]), r, Halves(ws), r.Size())
    {
      ghost var r := RectOf(origin, size);
      StartLoad(origin, size);
      MulPos(r.w, r.h);
      var i := 0;
      while i < |ws|
        invariant 0 <= i <= |ws| && Valid() && load == r && base == old(vram[..]) && got == Halves(ws[..i])
        invariant mode == (if i < |ws| then ImageLoad else Command) && loadWords == |ws| - i
        invariant i == |ws| ==> vram[..] == Loaded(base, r, got, r.Size())
      {
        assert ws[..i + 1][..i] == ws[..i];
        LoadWord(ws[i]);
        i := i + 1;
      }
      assert ws[..|ws|] == ws;
    }

    // ---- Downloads ----

    method StartStore(origin: Word, size: Word)
      requires Valid() && mode == Command
      modifies this
      ensures Valid() && settings == old(settings)
      ensures var r := RectOf(origin, size);
              if r.Valid() then mode == ImageStore && store == r && storeWords == r.Words() && gone == 0
              else mode == Command
    {
      var r := RectOf(origin, size);
      if r.w == 0 || r.h == 0 { return; }
      store, storeX, storeY := r, 0, 0;
      gone := 0;
      MulPos(r.w, r.h);
      storeWords := (r.w * r.h + 1) / 2;
      mode := ImageStore;
      StartCursor(r.w);
    }

    /** Fetch the pixel under the cursor and move on. */
    method TakePixel(ghost k: nat) returns (pixel: Cell)
      requires vram.Length == CELLS && store.Valid() && CursorAt(storeX, storeY, store.w, k)
      modifies this`storeX, this`storeY
      ensures pixel == vram[store.CellAt(k)] && CursorAt(storeX, storeY, store.w, k + 1)
    {
      NextPixel(k, store.w);
      pixel := vram[Address(Point(store.x + storeX, store.y + storeY))];
      storeX := storeX + 1;
      if storeX >= store.w {
        storeX, storeY := 0, storeY + 1;
      }
    }

    /** The port's read register: a download's next word, or the latch when there is no download. */
    method ReadWord() returns (w: Word)
      requires Valid()
      modifies this`mode, this`storeX, this`storeY, this`storeWords, this`gone
      ensures Valid()
      ensures old(mode) != ImageStore ==> w == latch && mode == old(mode)
      ensures old(mode) == ImageStore ==>
                && w == StoredWord(vram[..], store, old(gone)) && gone == old(gone) + 1
                && storeWords == old(storeWords) - 1
                && mode == if old(storeWords) == 1 then Command else ImageStore
    {
      if mode != ImageStore || storeWords == 0 { return latch; }
      var p0 := TakePixel(2 * gone);
      var p1 := TakePixel(2 * gone + 1);
      gone := gone + 1;
      storeWords := storeWords - 1;
      if storeWords == 0 {
        mode := Command;
      }
      w := Joined(p0, p1);
    }

    /** A whole download. */
    method Download(origin: Word, size: Word) returns (ws: seq<Word>)
      requires Valid() && mode == Command && RectOf(origin, size).Valid()
      modifies this
      ensures Valid() && mode == Command
      ensures var r := RectOf(origin, size);
              |ws| == r.Words() && forall i :: 0 <= i < |ws| ==> ws[i] == StoredWord(vram[..], r, i)
    {
      ghost var r := RectOf(origin, size);
      StartStore(origin, size);
      MulPos(r.w, r.h);
      ws := [];
      while mode == ImageStore
        invariant Valid() && store == r && gone == |ws| && |ws| + storeWords == r.Words()
        invariant mode == (if storeWords > 0 then ImageStore else Command)
        invariant forall i :: 0 <= i < |ws| ==> ws[i] == StoredWord(vram[..], r, i)
        decreases storeWords
      {
        var w := ReadWord();
        ws := ws + [w];
      }
    }

    /** Up and down again: the same words, but for the unused half of an odd last one. */
    method RoundTrip(origin: Word, size: Word, ws: seq<Word>) returns (back: seq<Word>)
      requires Valid() && mode == Command && RectOf(origin, size).Fits() && |ws| == RectOf(origin, size).Words()
      modifies this, vram
      ensures |back| == |ws|
      ensures forall i :: 0 <= i < |ws| ==>
                if 2 * i + 1 < RectOf(origin, size).Size() then back[i] == ws[i] else Low(back[i]) == Low(ws[i])
    {
      ghost var r, before := RectOf(origin, size), vram[..];
      Upload(origin, size, ws);
      back := Download(origin, size);
      forall i | 0 <= i < |ws|
        ensures if 2 * i + 1 < r.Size() then back[i] == ws[i] else Low(back[i]) == Low(ws[i])
      {
        UploadThenDownload(before, r, ws, i);
      }
    }

    // ---- Copies ----

    /** Read row y of the source, whose pixels start at number `start`. */
    method ReadRow(src: Rect, y: nat, start: nat, tmp: array<Cell>)
      requires vram.Length == CELLS && src.Valid() && start == src.w * y && start + src.w <= tmp.Length && tmp != vram
      requires forall i :: 0 <= i < start ==> tmp[i] == vram[src.CellAt(i)]
      modifies tmp
      ensures forall i :: 0 <= i < start + src.w ==> tmp[i] == vram[src.CellAt(i)]
    {
      var x := 0;
      while x < src.w
        invariant 0 <= x <= src.w
        invariant forall i :: 0 <= i < start + x ==> tmp[i] == vram[src.CellAt(i)]
      {
        PixelInRow(src, y, start, x);
        tmp[start + x] := vram[Address(Point(src.x + x, src.y + y))];
        x := x + 1;
      }
    }

    /** Read the whole source before anything is written. */
    method ReadAll(src: Rect) returns (tmp: array<Cell>)
      requires vram.Length == CELLS && src.Valid()
      ensures fresh(tmp) && tmp.Length == src.Size()
      ensures forall i :: 0 <= i < src.Size() ==> tmp[i] == vram[src.CellAt(i)]
    {
      MulPos(src.w, src.h);
      tmp := new Cell[src.w * src.h](_ => 0);
      var y, start := 0, 0;
      while y < src.h
        invariant 0 <= y <= src.h && start == src.w * y && 0 <= start <= tmp.Length
        invariant forall i :: 0 <= i < start ==> tmp[i] == vram[src.CellAt(i)]
      {
        RowFits(y, src);
        ReadRow(src, y, start, tmp);
        y, start := y + 1, start + src.w;
      }
    }

    /** Write one pixel of a copy, subject to the mask bit. */
    method WritePixel(cell: nat, colour: Cell)
      requires vram.Length == CELLS && cell < CELLS
      modifies vram
      ensures vram[..] == old(vram[..])[cell := Drawn1(settings, old(vram[cell]), colour, false)]
    {
      if settings.preserveMasked && vram[cell] >= 0x8000 { return; }
      vram[cell] := if settings.forceMask && colour < 0x8000 then colour + 0x8000 else colour;
    }

    method WriteRow(dst: Rect, y: nat, start: nat, data: seq<Cell>, ghost before: seq<Cell>)
      requires vram.Length == CELLS && |before| == CELLS && dst.Valid()
      requires start == dst.w * y && start + dst.w <= |data|
      requires vram[..] == Copied(before, settings, dst, data, start)
      modifies vram
      ensures vram[..] == Copied(before, settings, dst, data, start + dst.w)
    {
      var x := 0;
      while x < dst.w
        invariant 0 <= x <= dst.w
        invariant vram[..] == Copied(before, settings, dst, data, start + x)
      {
        PixelInRow(dst, y, start, x);
        WritePixel(Address(Point(dst.x + x, dst.y + y)), data[start + x]);
        x := x + 1;
      }
    }

    method WriteAll(dst: Rect, data: seq<Cell>)
      requires vram.Length == CELLS && dst.Valid() && |data| == dst.Size()
      modifies vram
      ensures vram[..] == Copied(old(vram[..]), settings, dst, data, dst.Size())
    {
      var y, start := 0, 0;
      while y < dst.h
        invariant 0 <= y <= dst.h && start == dst.w * y && 0 <= start <= |data|
        invariant vram[..] == Copied(old(vram[..]), settings, dst, data, start)
      {
        RowFits(y, dst);
        WriteRow(dst, y, start, data, old(vram[..]));
        y, start := y + 1, start + dst.w;
      }
    }

    /** A copy within video memory; a width or height of zero stands for the whole memory. */
    method Copy(from: Word, to: Word, size: Word)
      requires Valid() && mode == Command
      modifies vram
      ensures Valid()
      ensures IsCopy(old(vram[..]), vram[..], settings, CopyRect(from, size), CopyRect(to, size))
    {
      var src, dst := CopyRect(from, size), CopyRect(to, size);
      var tmp := ReadAll(src);
      ghost var before := vram[..];
      var data := tmp[..];
      WriteAll(dst, data);
      CopyIsSimultaneous(before, settings, src, dst, data);
    }
  }

  /** The rectangle of a copy: unlike an upload's, its size is taken modulo the memory's. */
  function CopyRect(origin: Word, size: Word): (r: Rect)
    ensures r.Fits() && r.w == CopyWidth(size) && r.h == CopyHeight(size)
  {
    Rect(origin % 0x400, origin / 0x1_0000 % 0x200, CopyWidth(size), CopyHeight(size))
  }

  /** A copy's size counts modulo the memory's, from 1 to all of it. */
  lemma CopyFields(x: Half, y: Half, w: Half, h: Half)
    ensures var r := CopyRect(Joined(x, y), Joined(w, h));
            && r.x == x % VRAM_W && r.y == y % VRAM_H
            && 1 <= r.w <= VRAM_W && (w - r.w) % VRAM_W == 0
            && 1 <= r.h <= VRAM_H && (h - r.h) % VRAM_H == 0
  {
    HalvesOf(x, y);
    HalvesOf(w, h);
    WholeColumns(x, y);
    WholeColumns(w, h);
  }

  lemma PixelInRow(r: Rect, y: nat, start: nat, x: nat)
    requires r.Valid() && start == r.w * y && x < r.w
    ensures r.CellAt(start + x) == Address(Point(r.x + x, r.y + y))
  {
    QuotientUnique(start + x, r.w, y);
  }

  function CopyWidth(size: Word): (w: nat)
    ensures 0 < w <= VRAM_W
  {
    if size % 0x400 == 0 then VRAM_W else size % 0x400
  }

  function CopyHeight(size: Word): (h: nat)
    ensures 0 < h <= VRAM_H
  {
    if size / 0x1_0000 % 0x200 == 0 then VRAM_H else size / 0x1_0000 % 0x200
  }

  lemma StartCursor(w: nat)
    requires 0 < w
    ensures CursorAt(0, 0, w, 0)
  {
    QuotientUnique(0, w, 0);
  }

  lemma RowFits(y: nat, r: Rect)
    requires y < r.h && 0 < r.w
    ensures 0 <= r.w * y && r.w * (y + 1) == r.w * y + r.w <= r.Size()
  {
    MulPos(r.w, y);
    MulSum(r.w, y, 1);
    MulMono(y + 1, r.h, r.w);
  }

  lemma {:induction false} LoadedPrefix(m: seq<Cell>, r: Rect, data: seq<Cell>, longer: seq<Cell>, k: nat)
    requires |m| == CELLS && r.Valid() && k <= |data| <= |longer| && longer[..|data|] == data
    ensures Loaded(m, r, longer, k) == Loaded(m, r, data, k)
  {
    if k > 0 {
      LoadedPrefix(m, r, data, longer, k - 1);
    }
  }
}
