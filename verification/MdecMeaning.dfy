/** What a decoded block holds: every coefficient that arrived, in its own place, and zero elsewhere.

    The two orders of arrival are permutations of the 64 places, shown by their inverses; arrivals come with
    increasing numbers, so no coefficient is set twice.
 */
module MdecMeaning {

  import opened MdecParse
  import opened Words

  // ---- The orders of arrival are permutations ----

  function ZagzigInverse(row: nat): (r: seq<nat>)
    requires row < 8
    ensures |r| == 8
  {
    if row == 0 then [0, 1, 5, 6, 14, 15, 27, 28]
    else if row == 1 then [2, 4, 7, 13, 16, 26, 29, 42]
    else if row == 2 then [3, 8, 12, 17, 25, 30, 41, 43]
    else if row == 3 then [9, 11, 18, 24, 31, 40, 44, 53]
    else if row == 4 then [10, 19, 23, 32, 39, 45, 52, 54]
    else if row == 5 then [20, 22, 33, 38, 46, 51, 55, 60]
    else if row == 6 then [21, 34, 37, 47, 50, 56, 59, 61]
    else [35, 36, 48, 49, 57, 58, 62, 63]
  }

  function ColourInverse(row: nat): (r: seq<nat>)
    requires row < 8
    ensures |r| == 8
  {
    if row == 0 then [0, 2, 3, 9, 10, 20, 21, 35]
    else if row == 1 then [1, 4, 8, 11, 19, 22, 34, 36]
    else if row == 2 then [5, 7, 12, 18, 23, 33, 37, 48]
    else if row == 3 then [6, 13, 17, 24, 32, 38, 47, 49]
    else if row == 4 then [14, 16, 25, 31, 39, 46, 50, 57]
    else if row == 5 then [15, 26, 30, 40, 45, 51, 56, 58]
    else if row == 6 then [27, 29, 41, 44, 52, 55, 59, 62]
    else [28, 42, 43, 53, 54, 60, 61, 63]
  }

  predicate ZagzigUndone(row: nat)
    requires row < 8
  {
    forall j :: 0 <= j < 8 ==> ZagzigInverse(Zagzig(row)[j] / 8)[Zagzig(row)[j] % 8] == 8 * row + j
  }

  lemma ZagzigRow0() ensures ZagzigUndone(0) {}

  lemma ZagzigRow1() ensures ZagzigUndone(1) {}

  lemma ZagzigRow2() ensures ZagzigUndone(2) {}

  lemma ZagzigRow3() ensures ZagzigUndone(3) {}

  lemma ZagzigRow4() ensures ZagzigUndone(4) {}

  lemma ZagzigRow5() ensures ZagzigUndone(5) {}

  lemma ZagzigRow6() ensures ZagzigUndone(6) {}

  lemma ZagzigRow7() ensures ZagzigUndone(7) {}

  lemma ZagzigIsPermutation(row: nat)
    requires row < 8
    ensures ZagzigUndone(row)
  {
    ZagzigRow0();
    ZagzigRow1();
    ZagzigRow2();
    ZagzigRow3();
    ZagzigRow4();
    ZagzigRow5();
    ZagzigRow6();
    ZagzigRow7();
  }

  predicate ColourUndone(row: nat)
    requires row < 8
  {
    forall j :: 0 <= j < 8 ==> ColourInverse(ColourZigzag(row)[j] / 8)[ColourZigzag(row)[j] % 8] == 8 * row + j
  }

  lemma ColourRow0() ensures ColourUndone(0) {}

  lemma ColourRow1() ensures ColourUndone(1) {}

  lemma ColourRow2() ensures ColourUndone(2) {}

  lemma ColourRow3() ensures ColourUndone(3) {}

  lemma ColourRow4() ensures ColourUndone(4) {}

  lemma ColourRow5() ensures ColourUndone(5) {}

  lemma ColourRow6() ensures ColourUndone(6) {}

  lemma ColourRow7() ensures ColourUndone(7) {}

  lemma ColourIsPermutation(row: nat)
    requires row < 8
    ensures ColourUndone(row)
  {
    ColourRow0();
    ColourRow1();
    ColourRow2();
    ColourRow3();
    ColourRow4();
    ColourRow5();
    ColourRow6();
    ColourRow7();
  }

  /** The coefficient whose place is `cell`. */
  function NumberOf(kind: Kind, q: nat, cell: nat): nat
    requires cell < COEFFICIENTS
  {
    match kind
    case Mono => if q > 0 then ZagzigInverse(cell / 8)[cell % 8] else cell
    case Colour => ColourInverse(cell / 8)[cell % 8]
  }

  lemma PlaceIsPermutation(kind: Kind, q: nat, k: nat)
    requires k < COEFFICIENTS
    ensures NumberOf(kind, q, Place(kind, q, k)) == k
  {
    ZagzigIsPermutation(k / 8);
    ColourIsPermutation(k / 8);
    assert k == 8 * (k / 8) + k % 8;
  }

  // ---- Arrivals and places ----

  predicate Increasing(arrived: Arrivals) {
    forall i, j :: 0 <= i < j < |arrived| ==> arrived[i].k < arrived[j].k
  }

  lemma {:induction false} ArrivalsIncrease(p: seq<Half>, k: nat, arrived: Arrivals, complete: bool)
    requires k < COEFFICIENTS && Increasing(arrived) && arrived != [] && arrived[|arrived| - 1].k == k
    requires Tail(p, k, arrived, complete).Done?
    ensures Increasing(Tail(p, k, arrived, complete).value)
    decreases COEFFICIENTS - k
  {
    if k < 63 && p != [] && p[0] != END && k + Run(p[0]) + 1 <= 63 {
      var next := k + Run(p[0]) + 1;
      ArrivalsIncrease(p[1..], next, arrived + [Arrival(next, p[0])], complete);
    }
  }

  // ---- What a halfword stands for ----

  /** A run of zeros and the level after it, as an encoder writes them. */
  function HalfOf(run: nat, level: int): Half
    requires run < 64 && -512 <= level < 512
  {
    1024 * run + if level < 0 then level + 1024 else level
  }

  lemma HalfRoundTrip(run: nat, level: int)
    requires run < 64 && -512 <= level < 512
    ensures Run(HalfOf(run, level)) == run && Level(HalfOf(run, level)) == level
  {
  }

  /** v is r, or the end of the range that r lies beyond. */
  predicate Limited(v: int, r: int, lo: int, hi: int) {
    lo <= v <= hi && (v == r || (v == lo && r < lo) || (v == hi && r > hi))
  }

  /** The value of a level before it is limited, without any division. In blocks of scale 0 it is a multiple of the
      level. In the others it stands for the level times the table's entry, and after the first coefficient also times
      the scale: a luminance value is an eighth of that product to the nearest whole number; a colour value is twice
      it, less 8 to 22 towards zero, and always 8 off a multiple of 16. Only one number has these properties. */
  predicate Dequantised(kind: Kind, first: bool, q: nat, level: int, quant: int, r: int) {
    var once := level * quant;
    var x := once * q;
    match kind
    case Mono =>
      if q == 0 then r == 2 * level else if first then r == once else -4 < 8 * r - x <= 4
    case Colour =>
      if q == 0 then r == 32 * level
      else if level == 0 then r == 0
      else if first then r - 16 * once == if level > 0 then -8 else 8
      else if level > 0 then -22 <= r - 2 * x <= -8 && r % 16 == 8
      else -6 <= r - 2 * x <= 8 && r % 16 == 8
  }

  ghost predicate Means(kind: Kind, q: nat, k: nat, level: int, quant: int, v: int) {
    exists r: int :: Dequantised(kind, k == 0, q, level, quant, r)
                     && (if kind == Mono then Limited(v, r, -0x400, 0x3FF) else Limited(v, r, -0x4000, 0x3FFF))
  }

  lemma ClampLimits(r: int, lo: int, hi: int)
    requires lo <= hi
    ensures Limited(Clamp(r, lo, hi), r, lo, hi)
  {
  }

  lemma EighthNearest(x: int)
    ensures -4 < 8 * ((x + 4) / 8) - x <= 4
  {
  }

  lemma TwiceBelow(x: int)
    ensures 2 * x - 14 <= x / 8 * 16 <= 2 * x && x / 8 * 16 % 16 == 0
  {
  }

  lemma FirstMeans(kind: Kind, q: nat, a: Arrival, quant: nat)
    requires a.k == 0 && q == Run(a.half)
    ensures Means(kind, q, 0, Level(a.half), quant, FirstValue(kind, a.half, quant))
  {
    var level := Level(a.half);
    var once := level * quant;
    match kind
    case Mono =>
      var r := if q == 0 then 2 * level else once;
      ClampLimits(r, -0x400, 0x3FF);
      assert Dequantised(Mono, true, q, level, quant, r);
    case Colour =>
      var r := if q == 0 then 32 * level else 16 * once + if level < 0 then 8 else if level > 0 then -8 else 0;
      ClampLimits(r, -0x4000, 0x3FFF);
      assert Dequantised(Colour, true, q, level, quant, r);
  }

  lemma LaterMeans(kind: Kind, q: nat, a: Arrival, quant: nat)
    requires a.k > 0
    ensures Means(kind, q, a.k, Level(a.half), quant, LaterValue(kind, a.half, quant, q))
  {
    var level := Level(a.half);
    var x := level * quant * q;
    match kind
    case Mono =>
      var r := if q == 0 then level * 2 else (x + 4) / 8;
      LaterMono(q, level, quant, r);
      ClampLimits(r, -0x400, 0x3FF);
    case Colour =>
      var r := if q == 0 then level * 32 else x / 8 * 16 + TowardZero(level);
      LaterColour(q, level, quant, r);
      ClampLimits(r, -0x4000, 0x3FFF);
  }

  lemma LaterMono(q: nat, level: int, quant: nat, r: int)
    requires r == if q == 0 then level * 2 else (level * quant * q + 4) / 8
    ensures Dequantised(Mono, false, q, level, quant, r)
  {
    EighthNearest(level * quant * q);
  }

  lemma LaterColour(q: nat, level: int, quant: nat, r: int)
    requires r == if q == 0 then level * 32 else level * quant * q / 8 * 16 + TowardZero(level)
    ensures Dequantised(Colour, false, q, level, quant, r)
  {
    if q > 0 { OffByEight(level * quant * q, level, r); }
  }

  lemma OffByEight(x: int, level: int, r: int)
    requires r == x / 8 * 16 + TowardZero(level) && (level == 0 ==> x == 0)
    ensures level > 0 ==> -22 <= r - 2 * x <= -8 && r % 16 == 8
    ensures level < 0 ==> -6 <= r - 2 * x <= 8 && r % 16 == 8
    ensures level == 0 ==> r == 0
  {
    TwiceBelow(x);
  }

  /** There is only one such value. */
  lemma MeaningUnique(kind: Kind, q: nat, k: nat, level: int, quant: int, v: int, w: int)
    requires Means(kind, q, k, level, quant, v) && Means(kind, q, k, level, quant, w)
    ensures v == w
  {
    var r :| Dequantised(kind, k == 0, q, level, quant, r)
             && (if kind == Mono then Limited(v, r, -0x400, 0x3FF) else Limited(v, r, -0x4000, 0x3FFF));
    var t :| Dequantised(kind, k == 0, q, level, quant, t)
             && (if kind == Mono then Limited(w, t, -0x400, 0x3FF) else Limited(w, t, -0x4000, 0x3FFF));
    OneDequantised(kind, k == 0, q, level, quant, r, t);
  }

  lemma OneDequantised(kind: Kind, first: bool, q: nat, level: int, quant: int, r: int, t: int)
    requires Dequantised(kind, first, q, level, quant, r) && Dequantised(kind, first, q, level, quant, t)
    ensures r == t
  {
  }

  function ValueOf(kind: Kind, quant: QuantTable, q: nat, a: Arrival): int {
    if a.k == 0 then FirstValue(kind, a.half, quant[0]) else LaterValue(kind, a.half, quant[a.k], q)
  }

  lemma ValueMeans(kind: Kind, quant: QuantTable, q: nat, a: Arrival)
    requires a.k == 0 ==> q == Run(a.half)
    ensures Means(kind, q, a.k, Level(a.half), quant[a.k], ValueOf(kind, quant, q, a))
  {
    if a.k == 0 { FirstMeans(kind, q, a, quant[0]); } else { LaterMeans(kind, q, a, quant[a.k]); }
  }

  /** The halfword that carries the scale is the only one with number 0. */
  lemma FirstIsFirst(p: seq<Half>, h: Half, complete: bool, i: nat)
    requires Tail(p, 0, [Arrival(0, h)], complete).Done?
    ensures var arrived := Tail(p, 0, [Arrival(0, h)], complete).value;
            i < |arrived| && arrived[i].k == 0 ==> arrived[i].half == h
  {
    ArrivalsIncrease(p, 0, [Arrival(0, h)], complete);
    TailExtends(p, 0, [Arrival(0, h)], complete);
  }

  lemma {:induction false} TailExtends(p: seq<Half>, k: nat, arrived: Arrivals, complete: bool)
    requires k < COEFFICIENTS && Tail(p, k, arrived, complete).Done?
    ensures arrived <= Tail(p, k, arrived, complete).value
    decreases COEFFICIENTS - k
  {
    if k < 63 && p != [] && p[0] != END && k + Run(p[0]) + 1 <= 63 {
      var next := k + Run(p[0]) + 1;
      TailExtends(p[1..], next, arrived + [Arrival(next, p[0])], complete);
    }
  }

  lemma DifferentPlaces(kind: Kind, q: nat, j: nat, k: nat)
    requires j < COEFFICIENTS && k < COEFFICIENTS && j != k
    ensures Place(kind, q, j) != Place(kind, q, k)
  {
    PlaceIsPermutation(kind, q, j);
    PlaceIsPermutation(kind, q, k);
  }

  lemma PutPlaces(kind: Kind, quant: QuantTable, q: nat, c: Coefficients, a: Arrival, cell: nat)
    requires cell < COEFFICIENTS
    ensures Put(kind, quant, q, c, a)[cell]
            == if cell == Place(kind, q, a.k) then ValueOf(kind, quant, q, a) else c[cell]
  {
  }

  lemma {:induction false} FilledAt(kind: Kind, quant: QuantTable, q: nat, arrived: Arrivals, i: nat)
    requires Increasing(arrived) && i < |arrived|
    ensures Filled(kind, quant, q, arrived)[Place(kind, q, arrived[i].k)] == ValueOf(kind, quant, q, arrived[i])
  {
    var n := |arrived| - 1;
    PutPlaces(kind, quant, q, Filled(kind, quant, q, arrived[..n]), arrived[n], Place(kind, q, arrived[i].k));
    if i < n {
      FilledAt(kind, quant, q, arrived[..n], i);
      DifferentPlaces(kind, q, arrived[i].k, arrived[n].k);
    }
  }

  lemma {:induction false} FilledElsewhere(kind: Kind, quant: QuantTable, q: nat, arrived: Arrivals, cell: nat)
    requires cell < COEFFICIENTS && forall i :: 0 <= i < |arrived| ==> Place(kind, q, arrived[i].k) != cell
    ensures Filled(kind, quant, q, arrived)[cell] == 0
  {
    if arrived != [] {
      FilledElsewhere(kind, quant, q, arrived[..|arrived| - 1], cell);
    }
  }

  /** A decoded block: each arrival's value in the place of its number, zero everywhere else. */
  lemma BlockMeaning(kind: Kind, quant: QuantTable, p: seq<Half>, complete: bool, i: nat, cell: nat)
    requires Block(kind, quant, p, complete).Done? && cell < COEFFICIENTS
    ensures var s := SkipEnds(p);
            var q, arrived := Run(s[0]), Tail(s[1..], 0, [Arrival(0, s[0])], complete).value;
            var c := Block(kind, quant, p, complete).value;
            && Increasing(arrived)
            && (i < |arrived| ==>
                  var k := arrived[i].k; Means(kind, q, k, Level(arrived[i].half), quant[k], c[Place(kind, q, k)]))
            && ((forall j :: 0 <= j < |arrived| ==> Place(kind, q, arrived[j].k) != cell) ==> c[cell] == 0)
  {
    var s := SkipEnds(p);
    var q, arrived := Run(s[0]), Tail(s[1..], 0, [Arrival(0, s[0])], complete).value;
    ArrivalsIncrease(s[1..], 0, [Arrival(0, s[0])], complete);
    if i < |arrived| {
      FilledAt(kind, quant, q, arrived, i);
      FirstIsFirst(s[1..], s[0], complete, i);
      ValueMeans(kind, quant, q, arrived[i]);
    }
    if forall j :: 0 <= j < |arrived| ==> Place(kind, q, arrived[j].k) != cell {
      FilledElsewhere(kind, quant, q, arrived, cell);
    }
  }
}
