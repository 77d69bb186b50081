/** The perspective divide of the geometry engine: a table look-up, one Newton step and a rounding.

    `DivideIsAccurate` bounds the distance to the exact quotient h * 65536 / sz for all inputs. The proof
    follows the Newton identity: with e = 2^24 - r * x the error of the table entry x for divisor r, the
    corrected reciprocal satisfies r * recip * 2^16 = 2^48 - e^2 + rounding.
 */
module GteDivide {

  import Arith

  const LIMIT := 0x1FFFF

  // ---- The reciprocal table, eight entries to a row; the last row holds entry 256 ----

  function UnrA(row: nat): (r: seq<nat>)
    requires 0 <= row < 8
    ensures |r| == 8 && forall j :: 0 <= j < |r| ==> r[j] < 256
  {
    if row == 0 then [0xFF, 0xFD, 0xFB, 0xF9, 0xF7, 0xF5, 0xF3, 0xF1]
    else if row == 1 then [0xEF, 0xEE, 0xEC, 0xEA, 0xE8, 0xE6, 0xE4, 0xE3]
    else if row == 2 then [0xE1, 0xDF, 0xDD, 0xDC, 0xDA, 0xD8, 0xD6, 0xD5]
    else if row == 3 then [0xD3, 0xD1, 0xD0, 0xCE, 0xCD, 0xCB, 0xC9, 0xC8]
    else if row == 4 then [0xC6, 0xC5, 0xC3, 0xC1, 0xC0, 0xBE, 0xBD, 0xBB]
    else if row == 5 then [0xBA, 0xB8, 0xB7, 0xB5, 0xB4, 0xB2, 0xB1, 0xB0]
    else if row == 6 then [0xAE, 0xAD, 0xAB, 0xAA, 0xA9, 0xA7, 0xA6, 0xA4]
    else [0xA3, 0xA2, 0xA0, 0x9F, 0x9E, 0x9C, 0x9B, 0x9A]
  }

  function UnrB(row: nat): (r: seq<nat>)
    requires 8 <= row < 16
    ensures |r| == 8 && forall j :: 0 <= j < |r| ==> r[j] < 256
  {
    if row == 8 then [0x99, 0x97, 0x96, 0x95, 0x94, 0x92, 0x91, 0x90]
    else if row == 9 then [0x8F, 0x8D, 0x8C, 0x8B, 0x8A, 0x89, 0x87, 0x86]
    else if row == 10 then [0x85, 0x84, 0x83, 0x82, 0x81, 0x7F, 0x7E, 0x7D]
    else if row == 11 then [0x7C, 0x7B, 0x7A, 0x79, 0x78, 0x77, 0x75, 0x74]
    else if row == 12 then [0x73, 0x72, 0x71, 0x70, 0x6F, 0x6E, 0x6D, 0x6C]
    else if row == 13 then [0x6B, 0x6A, 0x69, 0x68, 0x67, 0x66, 0x65, 0x64]
    else if row == 14 then [0x63, 0x62, 0x61, 0x60, 0x5F, 0x5E, 0x5D, 0x5D]
    else [0x5C, 0x5B, 0x5A, 0x59, 0x58, 0x57, 0x56, 0x55]
  }

  function UnrC(row: nat): (r: seq<nat>)
    requires 16 <= row < 24
    ensures |r| == 8 && forall j :: 0 <= j < |r| ==> r[j] < 256
  {
    if row == 16 then [0x54, 0x53, 0x53, 0x52, 0x51, 0x50, 0x4F, 0x4E]
    else if row == 17 then [0x4D, 0x4D, 0x4C, 0x4B, 0x4A, 0x49, 0x48, 0x48]
    else if row == 18 then [0x47, 0x46, 0x45, 0x44, 0x43, 0x43, 0x42, 0x41]
    else if row == 19 then [0x40, 0x3F, 0x3F, 0x3E, 0x3D, 0x3C, 0x3C, 0x3B]
    else if row == 20 then [0x3A, 0x39, 0x39, 0x38, 0x37, 0x36, 0x36, 0x35]
    else if row == 21 then [0x34, 0x33, 0x33, 0x32, 0x31, 0x31, 0x30, 0x2F]
    else if row == 22 then [0x2E, 0x2E, 0x2D, 0x2C, 0x2C, 0x2B, 0x2A, 0x2A]
    else [0x29, 0x28, 0x28, 0x27, 0x26, 0x26, 0x25, 0x24]
  }

  function UnrD(row: nat): (r: seq<nat>)
    requires 24 <= row < 33
    ensures |r| == (if row == 32 then 1 else 8) && forall j :: 0 <= j < |r| ==> r[j] < 256
  {
    if row == 24 then [0x24, 0x23, 0x22, 0x22, 0x21, 0x20, 0x20, 0x1F]
    else if row == 25 then [0x1E, 0x1E, 0x1D, 0x1D, 0x1C, 0x1B, 0x1B, 0x1A]
    else if row == 26 then [0x19, 0x19, 0x18, 0x18, 0x17, 0x16, 0x16, 0x15]
    else if row == 27 then [0x15, 0x14, 0x14, 0x13, 0x12, 0x12, 0x11, 0x11]
    else if row == 28 then [0x10, 0x0F, 0x0F, 0x0E, 0x0E, 0x0D, 0x0D, 0x0C]
    else if row == 29 then [0x0C, 0x0B, 0x0A, 0x0A, 0x09, 0x09, 0x08, 0x08]
    else if row == 30 then [0x07, 0x07, 0x06, 0x06, 0x05, 0x05, 0x04, 0x04]
    else if row == 31 then [0x03, 0x03, 0x02, 0x02, 0x01, 0x01, 0x00, 0x00]
    else [0x00]
  }

  function Unr(row: nat): (r: seq<nat>)
    requires row <= 32
    ensures |r| == (if row == 32 then 1 else 8) && forall j :: 0 <= j < |r| ==> r[j] < 256
  {
    if row < 8 then UnrA(row) else if row < 16 then UnrB(row) else if row < 24 then UnrC(row) else UnrD(row)
  }

  /** The seed for table index i. */
  function Seed(i: nat): (x: nat)
    requires i <= 256
    ensures 0x101 <= x <= 0x200
  {
    0x101 + Unr(i / 8)[i % 8]
  }

  /** The index of a normalised divisor: the nearest of 257 points. */
  function Index(r: nat): (i: nat)
    requires 0x8000 <= r <= 0xFFFF
    ensures i <= 256
    ensures 0x8000 + 128 * i - 64 <= r <= 0x8000 + 128 * i + 63
  {
    (r - 0x8000 + 0x40) / 128
  }

  /** Seed x serves every divisor with index i: r * x is within 65279 of 2^24 at both ends of its range. */
  predicate Fits(i: nat, x: nat) {
    && 0x1000000 - 65279 <= (if i == 0 then 0x8000 else 0x8000 + 128 * i - 64) * x
    && (if i == 256 then 0xFFFF else 0x8000 + 128 * i + 63) * x <= 0x1000000 + 65279
  }

  predicate RowFits(row: nat, entries: seq<nat>) {
    forall j :: 0 <= j < |entries| ==> Fits(8 * row + j, 0x101 + entries[j])
  }

  /** Seed x is 2^17 divided by 256 + i, to the nearest whole number. */
  predicate Nearest(i: nat, x: nat) { 0x40000 - (256 + i) < 2 * ((256 + i) * x) <= 0x40000 + (256 + i) }

  predicate RowNearest(row: nat, entries: seq<nat>) {
    forall j :: 0 <= j < |entries| ==> 8 * row + j < 256 ==> Nearest(8 * row + j, 0x101 + entries[j])
  }

  lemma TableFitsA(row: nat)
    requires 0 <= row < 8
    ensures RowFits(row, UnrA(row))
  {
    assert RowFits(0, UnrA(0));
    assert RowFits(1, UnrA(1));
    assert RowFits(2, UnrA(2));
    assert RowFits(3, UnrA(3));
    assert RowFits(4, UnrA(4));
    assert RowFits(5, UnrA(5));
    assert RowFits(6, UnrA(6));
    assert RowFits(7, UnrA(7));
  }

  lemma TableFitsB(row: nat)
    requires 8 <= row < 16
    ensures RowFits(row, UnrB(row))
  {
    assert RowFits(8, UnrB(8));
    assert RowFits(9, UnrB(9));
    assert RowFits(10, UnrB(10));
    assert RowFits(11, UnrB(11));
    assert RowFits(12, UnrB(12));
    assert RowFits(13, UnrB(13));
    assert RowFits(14, UnrB(14));
    assert RowFits(15, UnrB(15));
  }

  lemma TableFitsC(row: nat)
    requires 16 <= row < 24
    ensures RowFits(row, UnrC(row))
  {
    assert RowFits(16, UnrC(16));
    assert RowFits(17, UnrC(17));
    assert RowFits(18, UnrC(18));
    assert RowFits(19, UnrC(19));
    assert RowFits(20, UnrC(20));
    assert RowFits(21, UnrC(21));
    assert RowFits(22, UnrC(22));
    assert RowFits(23, UnrC(23));
  }

  lemma TableFitsD(row: nat)
    requires 24 <= row < 28
    ensures RowFits(row, UnrD(row))
  {
    assert RowFits(24, UnrD(24));
    assert RowFits(25, UnrD(25));
    assert RowFits(26, UnrD(26));
    assert RowFits(27, UnrD(27));
  }

  lemma TableFitsE(row: nat)
    requires 28 <= row < 33
    ensures RowFits(row, UnrD(row))
  {
    assert RowFits(28, UnrD(28));
    assert RowFits(29, UnrD(29));
    assert RowFits(30, UnrD(30));
    assert RowFits(31, UnrD(31));
    assert RowFits(32, UnrD(32));
  }

  lemma SeedFits(i: nat)
    requires i <= 256
    ensures Fits(i, Seed(i))
  {
    var row, j := i / 8, i % 8;
    assert i == 8 * row + j;
    if row < 8 {
      TableFitsA(row);
    } else if row < 16 {
      TableFitsB(row);
    } else if row < 24 {
      TableFitsC(row);
    } else if row < 28 {
      TableFitsD(row);
    } else {
      TableFitsE(row);
    }
    assert RowFits(row, Unr(row));
  }

  lemma TableNearestA(row: nat)
    requires 0 <= row < 8
    ensures RowNearest(row, UnrA(row))
  {
    assert RowNearest(0, UnrA(0));
    assert RowNearest(1, UnrA(1));
    assert RowNearest(2, UnrA(2));
    assert RowNearest(3, UnrA(3));
    assert RowNearest(4, UnrA(4));
    assert RowNearest(5, UnrA(5));
    assert RowNearest(6, UnrA(6));
    assert RowNearest(7, UnrA(7));
  }

  lemma TableNearestB(row: nat)
    requires 8 <= row < 16
    ensures RowNearest(row, UnrB(row))
  {
    assert RowNearest(8, UnrB(8));
    assert RowNearest(9, UnrB(9));
    assert RowNearest(10, UnrB(10));
    assert RowNearest(11, UnrB(11));
    assert RowNearest(12, UnrB(12));
    assert RowNearest(13, UnrB(13));
    assert RowNearest(14, UnrB(14));
    assert RowNearest(15, UnrB(15));
  }

  lemma TableNearestC(row: nat)
    requires 16 <= row < 24
    ensures RowNearest(row, UnrC(row))
  {
    assert RowNearest(16, UnrC(16));
    assert RowNearest(17, UnrC(17));
    assert RowNearest(18, UnrC(18));
    assert RowNearest(19, UnrC(19));
    assert RowNearest(20, UnrC(20));
    assert RowNearest(21, UnrC(21));
    assert RowNearest(22, UnrC(22));
    assert RowNearest(23, UnrC(23));
  }

  lemma TableNearestD(row: nat)
    requires 24 <= row < 28
    ensures RowNearest(row, UnrD(row))
  {
    assert RowNearest(24, UnrD(24));
    assert RowNearest(25, UnrD(25));
    assert RowNearest(26, UnrD(26));
    assert RowNearest(27, UnrD(27));
  }

  lemma TableNearestE(row: nat)
    requires 28 <= row < 33
    ensures RowNearest(row, UnrD(row))
  {
    assert RowNearest(28, UnrD(28));
    assert RowNearest(29, UnrD(29));
    assert RowNearest(30, UnrD(30));
    assert RowNearest(31, UnrD(31));
    assert RowNearest(32, UnrD(32));
  }

  /** All entries but the last are the nearest; the last is the least a seed can be. */
  lemma SeedIsNearest(i: nat)
    requires i <= 256
    ensures i < 256 ==> Nearest(i, Seed(i))
    ensures i == 256 ==> Seed(i) == 0x101
  {
    var row, j := i / 8, i % 8;
    assert i == 8 * row + j;
    if row < 8 {
      TableNearestA(row);
    } else if row < 16 {
      TableNearestB(row);
    } else if row < 24 {
      TableNearestC(row);
    } else if row < 28 {
      TableNearestD(row);
    } else {
      TableNearestE(row);
    }
    assert RowNearest(row, Unr(row));
  }

  /** How far the table's seed is from the exact reciprocal of divisor r. */
  function SeedError(r: nat): int
    requires 0x8000 <= r <= 0xFFFF
  {
    0x1000000 - r * Seed(Index(r))
  }

  lemma SeedErrorSmall(r: nat)
    requires 0x8000 <= r <= 0xFFFF
    ensures -65279 <= SeedError(r) <= 65279
  {
    var i := Index(r);
    var x := Seed(i);
    SeedFits(i);
    var lo, hi := if i == 0 then 0x8000 else 0x8000 + 128 * i - 64, if i == 256 then 0xFFFF else 0x8000 + 128 * i + 63;
    Arith.MulMono(lo, r, x);
    Arith.MulMono(r, hi, x);
  }

  // ---- The Newton step ----

  /** d, and the corrected reciprocal; the shifts round down. */
  function Correction(r: nat, x: nat): int { (-(r * x) + 0x80) / 0x100 }

  function Corrected(r: nat, x: nat): int { (x * (0x20000 + Correction(r, x)) + 0x80) / 0x100 }

  function Reciprocal(r: nat): int
    requires 0x8000 <= r <= 0xFFFF
  {
    Corrected(r, Seed(Index(r)))
  }

  lemma RoundedEighth(v: int)
    ensures var q := (v + 0x80) / 0x100; v - 0x7F <= 0x100 * q <= v + 0x80
  {
  }

  /** The Newton identity, with both roundings collected in one term. */
  lemma NewtonIdentity(r: int, x: int, p: int, e: int, d: int, c: int)
    requires 0 <= r && 0 <= p == r * x && e == 0x1000000 - p
    requires -p - 0x7F <= 0x100 * d <= -p + 0x80
    requires x * (0x20000 + d) - 0x7F <= 0x100 * c <= x * (0x20000 + d) + 0x80
    ensures var t := 0x1_0000 * (r * c) - (0x1_0000_0000_0000 - e * e);
            -0x7F * p - 0x7F00 * r <= t <= 0x80 * p + 0x8000 * r
  {
    var d1, d2 := 0x100 * d + p, 0x100 * c - x * (0x20000 + d);
    OuterStep(r, x, p, 0x20000 + d, c, d2);
    InnerStep(p, d, d1, e);
    Between(p, d1, -0x7F, 0x80);
    Between(r, d2, -0x7F, 0x80);
    Combine(r, p, r * c, p * (0x20000 + d), e * e, p * d1, r * d2);
  }

  lemma Combine(r: int, p: int, w: int, half: int, square: int, first: int, second: int)
    requires 0x100 * w == half + second && 0x100 * half == 0x1_0000_0000_0000 - square + first
    requires -0x7F * p <= first <= 0x80 * p && -0x7F * r <= second <= 0x80 * r
    ensures var t := 0x1_0000 * w - (0x1_0000_0000_0000 - square);
            -0x7F * p - 0x7F00 * r <= t <= 0x80 * p + 0x8000 * r
  {
  }

  lemma OuterStep(r: int, x: int, p: int, s: int, c: int, d2: int)
    requires d2 == 0x100 * c - x * s && p == r * x
    ensures 0x100 * (r * c) == p * s + r * d2
  {
    assert r * (0x100 * c) == 0x100 * (r * c);
    Arith.MulSum(r, x * s, d2);
    Arith.MulAssoc(r, x, s);
  }

  lemma InnerStep(p: int, d: int, d1: int, e: int)
    requires d1 == 0x100 * d + p && e == 0x1000000 - p
    ensures 0x100 * (p * (0x20000 + d)) == 0x1_0000_0000_0000 - e * e + p * d1
  {
    assert 0x100 * (p * (0x20000 + d)) == p * (0x2000000 - p + d1);
    Arith.MulSum(p, 0x2000000 - p, d1);
    Square(p, e);
  }

  lemma Square(p: int, e: int)
    requires e == 0x1000000 - p
    ensures p * (0x2000000 - p) == 0x1_0000_0000_0000 - e * e
  {
    assert p == 0x1000000 - e && 0x2000000 - p == 0x1000000 + e;
    assert (0x1000000 - e) * (0x1000000 + e) == 0x1000000 * 0x1000000 - e * e;
  }

  lemma Between(a: int, v: int, lo: int, hi: int)
    requires 0 <= a && lo <= v <= hi
    ensures a * lo <= a * v <= a * hi
  {
    Arith.MulMono(lo, v, a);
    Arith.MulMono(v, hi, a);
  }

  lemma SquareSmall(e: int)
    requires -65279 <= e <= 65279
    ensures 0 <= e * e <= 65279 * 65279
  {
    if e >= 0 {
      Arith.MulMono(e, 65279, e);
      Arith.MulMono(e, 65279, 65279);
    } else {
      Arith.MulNegated(e, e);
      Arith.MulMono(-e, 65279, -e);
      Arith.MulMono(-e, 65279, 65279);
    }
  }

  /** r times its reciprocal is 2^32 within two parts in 2^16. */
  lemma ReciprocalIsAccurate(r: nat)
    requires 0x8000 <= r <= 0xFFFF
    ensures -0x2_0000 <= r * Reciprocal(r) - 0x1_0000_0000 <= 0x1_0080
  {
    var x, e := Seed(Index(r)), SeedError(r);
    SeedErrorSmall(r);
    var d, c := Correction(r, x), Reciprocal(r);
    RoundedEighth(-(r * x));
    RoundedEighth(x * (0x20000 + d));
    Arith.MulPos(r, x);
    NewtonIdentity(r, x, r * x, e, d, c);
    SquareSmall(e);
    Collect(r, r * x, r * c, e, e * e);
  }

  lemma Collect(r: int, p: int, w: int, e: int, square: int)
    requires 0x8000 <= r <= 0xFFFF && p == 0x1000000 - e && -65279 <= e <= 65279 && 0 <= square <= 65279 * 65279
    requires var t := 0x1_0000 * w - (0x1_0000_0000_0000 - square);
             -0x7F * p - 0x7F00 * r <= t <= 0x80 * p + 0x8000 * r
    ensures -0x2_0000 <= w - 0x1_0000_0000 <= 0x1_0080
  {
  }

  /** The reciprocal fits in 18 bits, so no later product comes near 64 bits. */
  lemma ReciprocalFits(r: nat)
    requires 0x8000 <= r <= 0xFFFF
    ensures 0x1_0000 <= Reciprocal(r) + 2 && Reciprocal(r) <= 0x2_0002
  {
    var c := Reciprocal(r);
    ReciprocalIsAccurate(r);
    if c > 0x2_0002 {
      Arith.MulMono(0x2_0003, c, r);
      Arith.MulMono(0x8000, r, 0x2_0003);
    }
    if c + 2 < 0x1_0000 {
      Arith.MulMono(c, 0xFFFD, r);
      Arith.MulMono(r, 0xFFFF, 0xFFFD);
    }
  }

  // ---- The quotient ----

  /** The power of two that brings a divisor to 16 bits. */
  function Scale(sz: nat): (m: nat)
    requires 0 < sz <= 0xFFFF
    ensures m >= 1
    decreases 0x1_0000 - sz
  {
    if sz >= 0x8000 then 1 else 2 * Scale(2 * sz)
  }

  lemma {:induction false} ScaleNormalises(sz: nat)
    requires 0 < sz <= 0xFFFF
    ensures 0x8000 <= sz * Scale(sz) <= 0xFFFF
    decreases 0x1_0000 - sz
  {
    if sz < 0x8000 {
      ScaleNormalises(2 * sz);
      var m := Scale(2 * sz);
      assert sz * (2 * m) == 2 * sz * m;
    }
  }

  function Rounded(lhs: nat, rhs: nat): int
    requires 0x8000 <= rhs <= 0xFFFF
  {
    (lhs * Reciprocal(rhs) + 0x8000) / 0x1_0000
  }

  function Capped(q: int): int { if q > LIMIT then LIMIT else q }

  function Quotient(h: nat, sz: nat): int
    requires sz <= 0xFFFF
  {
    if 2 * sz <= h then LIMIT
    else
      ScaleNormalises(sz);
      Capped(Rounded(h * Scale(sz), sz * Scale(sz)))
  }

  /** An answer q is within half a unit, and two parts in 2^16 of the quotient, of the exact h * 65536 / sz. */
  predicate Close(q: int, h: int, sz: int) {
    -0x2_0000 * h - 0x8000 * sz <= 0x1_0000 * (q * sz - 0x1_0000 * h) <= 0x1_0080 * h + 0x8000 * sz
  }

  /** Twice the error of an answer q against the exact h * 65536 / sz, times sz. */
  predicate Near(q: int, h: int, sz: int) { -9 * sz < 2 * (q * sz - 0x1_0000 * h) < 6 * sz }

  lemma RoundedIsClose(lhs: nat, rhs: nat)
    requires 0x8000 <= rhs <= 0xFFFF
    ensures Close(Rounded(lhs, rhs), lhs, rhs)
  {
    var c, q := Reciprocal(rhs), Rounded(lhs, rhs);
    var v := lhs * c;
    ReciprocalIsAccurate(rhs);
    Between(lhs, rhs * c - 0x1_0000_0000, -0x2_0000, 0x1_0080);
    Regroup(lhs, rhs, c);
    HalfUp(v, q);
    ScaleBy(rhs, v, q);
    CloseFrom(lhs, rhs, lhs * (rhs * c - 0x1_0000_0000), rhs * v, q * rhs);
  }

  lemma HalfUp(v: int, q: int)
    requires q == (v + 0x8000) / 0x1_0000
    ensures v - 0x7FFF <= 0x1_0000 * q <= v + 0x8000
  {
  }

  lemma ScaleBy(r: int, v: int, q: int)
    requires 0 <= r && v - 0x7FFF <= 0x1_0000 * q <= v + 0x8000
    ensures r * v - 0x7FFF * r <= 0x1_0000 * (q * r) <= r * v + 0x8000 * r
  {
    Arith.MulMono(v - 0x7FFF, 0x1_0000 * q, r);
    Arith.MulMono(0x1_0000 * q, v + 0x8000, r);
  }

  lemma Regroup(lhs: int, rhs: int, c: int)
    ensures lhs * (rhs * c - 0x1_0000_0000) == rhs * (lhs * c) - 0x1_0000_0000 * lhs
  {
    assert lhs * (rhs * c) == rhs * (lhs * c);
  }

  lemma CloseFrom(lhs: int, rhs: int, drift: int, scaled: int, answer: int)
    requires 0 <= lhs && 0 <= rhs && drift == scaled - 0x1_0000_0000 * lhs
    requires lhs * -0x2_0000 <= drift <= lhs * 0x1_0080
    requires scaled - 0x7FFF * rhs <= 0x1_0000 * answer <= scaled + 0x8000 * rhs
    ensures -0x2_0000 * lhs - 0x8000 * rhs <= 0x1_0000 * (answer - 0x1_0000 * lhs) <= 0x1_0080 * lhs + 0x8000 * rhs
  {
  }

  /** Capping cannot move an answer away from a quotient below 2. */
  lemma CappedIsClose(q: int, h: nat, sz: nat)
    requires 0 < sz <= 0xFFFF && h < 2 * sz && Close(q, h, sz)
    ensures Close(Capped(q), h, sz)
  {
    if q > LIMIT {
      Arith.MulMono(LIMIT, q, sz);
      assert LIMIT * sz == 0x2_0000 * sz - sz;
    }
  }

  lemma CloseUnscaled(q: int, h: nat, sz: nat, m: nat)
    requires m > 0 && Close(q, h * m, sz * m)
    ensures Close(q, h, sz)
  {
    var err := 0x1_0000 * (q * sz - 0x1_0000 * h);
    var lo, hi := -0x2_0000 * h - 0x8000 * sz, 0x1_0080 * h + 0x8000 * sz;
    assert q * (sz * m) == q * sz * m;
    assert 0x1_0000 * (q * (sz * m) - 0x1_0000 * (h * m)) == err * m;
    assert -0x2_0000 * (h * m) - 0x8000 * (sz * m) == lo * m && 0x1_0080 * (h * m) + 0x8000 * (sz * m) == hi * m;
    if lo > err { Arith.MulLess(err, lo, m); }
    if err > hi { Arith.MulLess(hi, err, m); }
  }

  lemma CloseIsNear(q: int, h: int, sz: int)
    requires 0 <= h < 2 * sz && Close(q, h, sz)
    ensures Near(q, h, sz)
  {
  }

  lemma NotNegative(lhs: nat, rhs: nat)
    requires 0x8000 <= rhs <= 0xFFFF
    ensures Rounded(lhs, rhs) >= 0
  {
    ReciprocalFits(rhs);
    Arith.MulPos(lhs, Reciprocal(rhs));
  }

  /** For all 16-bit inputs the answer lies in 0 to 0x1FFFF. When the quotient is 2 or more it is the cap;
      otherwise it is within half a unit and two parts in 2^16 of the exact h * 65536 / sz, so that it exceeds it by
      less than 3 and falls short of it by less than 4.5. */
  lemma DivideIsAccurate(h: nat, sz: nat)
    requires h <= 0xFFFF && sz <= 0xFFFF
    ensures 0 <= Quotient(h, sz) <= LIMIT
    ensures if h >= 2 * sz then Quotient(h, sz) == LIMIT
            else Close(Quotient(h, sz), h, sz) && Near(Quotient(h, sz), h, sz)
  {
    if h < 2 * sz {
      var m := Scale(sz);
      ScaleNormalises(sz);
      RoundedIsClose(h * m, sz * m);
      NotNegative(h * m, sz * m);
      CloseUnscaled(Rounded(h * m, sz * m), h, sz, m);
      CappedIsClose(Rounded(h * m, sz * m), h, sz);
      CloseIsNear(Quotient(h, sz), h, sz);
    }
  }

  // ---- The value that the routine's comment promises ----

  /** The comment's floor(h * 0x20000 / sz), clamped. */
  function Promised(h: nat, sz: nat): int
    requires 0 < sz
  {
    Capped(h * 0x2_0000 / sz)
  }

  /** The table's reciprocal of 2 * sz is rounded up far enough to lift the quotient just below 2 to the cap. */
  predicate RoundsToCap(sz: nat)
    requires 0x4000 < sz < 0x8000
  {
    (2 * sz - 1) * Reciprocal(2 * sz) >= 0x1_0000_0000 - 0xC000
  }

  /** All inputs for which the routine gives what its comment promises: a zero numerator, a quotient of 2 or more,
      one small exception, and quotients just below 2 that the table happens to round up. */
  lemma CommentHoldsIff(h: nat, sz: nat)
    requires h <= 0xFFFF && 0 < sz <= 0xFFFF
    ensures Quotient(h, sz) == Promised(h, sz)
            <==> h == 0 || 2 * sz <= h || (h == 1 && sz == 43691)
                 || (h == 2 * sz - 1 && 0x4000 < sz < 0x8000 && RoundsToCap(sz))
  {
    if h == 0 {
      ZeroNumerator(sz);
    } else if 2 * sz <= h {
      PromisedIsCap(h, sz);
    } else if sz <= h {
      PromisedIsCap(h, sz);
      if h == 2 * sz - 1 && 0x4000 < sz {
        JustBelowTwo(sz);
      } else {
        NotAtCap(h, sz);
      }
    } else {
      BelowOne(h, sz);
    }
  }

  /** Of two neighbouring divisors one does and one does not. */
  lemma SomeRoundToCap()
    ensures RoundsToCap(32704) && !RoundsToCap(32705)
  {
    assert Index(65408) == Index(65410) == 255 && Unr(31)[7] == 0x00 && Seed(255) == 0x101;
    assert Correction(65408, 0x101) == -65663 && Reciprocal(65408) == 65665;
    assert Correction(65410, 0x101) == -65666 && Reciprocal(65410) == 65661;
  }

  /** No divisor below 18700 does. */
  lemma RoundsToCapOnlyAbove(sz: nat)
    requires 0x4000 < sz < 18700
    ensures !RoundsToCap(sz)
  {
    var r, c := 2 * sz, Reciprocal(2 * sz);
    ReciprocalIsAccurate(r);
    if c <= 114816 {
      Arith.MulMono(c, 114816, r);
      Arith.MulMono(r, 37398, 114816);
    }
  }

  lemma PromisedIsCap(h: nat, sz: nat)
    requires 0 < sz <= h
    ensures Promised(h, sz) == LIMIT
  {
    Arith.DivMonotone(0x2_0000 * sz, h * 0x2_0000, sz);
    Arith.QuotientUnique(0x2_0000 * sz, sz, 0x2_0000);
  }

  lemma ZeroNumerator(sz: nat)
    requires 0 < sz <= 0xFFFF
    ensures Quotient(0, sz) == 0 == Promised(0, sz)
  {
    ScaleNormalises(sz);
    assert 0 * Scale(sz) == 0;
    assert Rounded(0, sz * Scale(sz)) == 0;
    Arith.QuotientUnique(0, sz, 0);
  }

  /** Between 1 and 2 the routine stays below the cap, unless the quotient is the last before 2. */
  lemma NotAtCap(h: nat, sz: nat)
    requires h <= 0xFFFF && sz <= h < 2 * sz && !(h == 2 * sz - 1 && 0x4000 < sz)
    ensures Quotient(h, sz) < LIMIT
  {
    DivideIsAccurate(h, sz);
  }

  lemma JustBelowTwo(sz: nat)
    requires 0x4000 < sz <= 0x8000
    ensures Quotient(2 * sz - 1, sz) == LIMIT <==> sz < 0x8000 && RoundsToCap(sz)
  {
    if sz < 0x8000 {
      assert Scale(2 * sz) == 1 && Scale(sz) == 2;
      var r, c := 2 * sz, Reciprocal(2 * sz);
      assert Quotient(2 * sz - 1, sz) == Capped(Rounded(2 * r - 2, r));
      Twice(r, c);
      HalfUp((2 * r - 2) * c, Rounded(2 * r - 2, r));
    } else {
      assert Scale(sz) == 1;
      ReciprocalOfSmallest();
      assert Quotient(0xFFFF, 0x8000) == Capped(Rounded(0xFFFF, 0x8000));
    }
  }

  lemma Twice(r: int, c: int)
    ensures (2 * r - 2) * c == 2 * ((r - 1) * c)
  {
    Arith.MulAssoc(2, r - 1, c);
  }

  lemma ReciprocalOfSmallest()
    ensures Reciprocal(0x8000) == 0x2_0000
  {
    assert Index(0x8000) == 0 && Seed(0) == 0x200;
    assert Correction(0x8000, 0x200) == -0x1_0000;
  }

  /** Below 1 the two values differ, but for one input where 1.49999 is rounded up to 2. */
  lemma BelowOne(h: nat, sz: nat)
    requires 0 < h < sz <= 0xFFFF
    ensures Quotient(h, sz) == Promised(h, sz) <==> h == 1 && sz == 43691
  {
    var p := h * 0x2_0000 / sz;
    Arith.FloorDiv(h * 0x2_0000, sz);
    if p > LIMIT { Arith.MulMono(0x2_0000, p, sz); }
    assert Promised(h, sz) == p;
    if h == 1 && sz == 43691 {
      OddOneOut();
      Arith.QuotientUnique(0x2_0000, sz, 2);
    } else {
      DivideIsAccurate(h, sz);
      if Quotient(h, sz) == p {
        DoubleIsFar(p, h, sz);
      }
    }
  }

  /** An answer close to the quotient is not the floor of its double. */
  lemma DoubleIsFar(p: int, h: int, sz: int)
    requires 0 < h < sz <= 0xFFFF && p * sz <= 0x2_0000 * h < (p + 1) * sz && Close(p, h, sz)
    ensures h == 1 && sz == 43691
  {
    var x := p * sz;
    assert (p + 1) * sz == x + sz;
    assert h == 1 && sz >= 43690;
    if p <= 1 {
      Arith.MulMono(p, 1, sz);
    } else if p >= 3 {
      Arith.MulMono(3, p, sz);
    }
  }

  lemma OddOneOut()
    ensures Quotient(1, 43691) == 2
  {
    assert Scale(43691) == 1;
    assert Index(43691) == 85 && Unr(10)[5] == 0x7F;
    assert Seed(85) == 0x180;
    assert Correction(43691, 0x180) == -0x1_0000;
    assert Reciprocal(43691) == 98304;
    assert Rounded(1, 43691) == 2;
  }

  /** Bit 15 set. */
  function WithTopBit(v: nat): nat
    requires v <= 0xFFFF
  {
    if v / 0x8000 % 2 == 1 then v else v + 0x8000
  }

  /** Shift both operands until the divisor has 16 bits; their ratio stays as it was. */
  method Normalise(h: nat, sz: nat) returns (lhs: nat, rhs: nat)
    requires h < 2 * sz && sz <= 0xFFFF
    ensures lhs == h * Scale(sz) && rhs == sz * Scale(sz) && 0x8000 <= rhs <= 0xFFFF && lhs < 2 * rhs
  {
    lhs, rhs := h, sz;
    ghost var m := 1;
    while rhs < 0x8000
      invariant 0 < rhs <= 0xFFFF && m >= 1 && lhs < 2 * rhs
      invariant lhs == h * m && rhs == sz * m && m * Scale(rhs) == Scale(sz)
      decreases 0x8000 - rhs
    {
      Doubled(h, sz, m, Scale(2 * rhs));
      lhs, rhs := 2 * lhs, 2 * rhs;
      m := 2 * m;
    }
    assert m == Scale(sz);
  }

  method Divide(h: nat, sz: nat) returns (result: int)
    requires h <= 0xFFFF && sz <= 0xFFFF
    ensures result == Quotient(h, sz)
  {
    if 2 * sz <= h { return LIMIT; }
    var lhs, rhs := Normalise(h, sz);
    var recip := NewtonStep(rhs);
    result := (lhs * recip + 0x8000) / 0x1_0000;
    if result > LIMIT {
      result := LIMIT;
    }
  }

  lemma NormalisedIndex(r: nat)
    requires 0x8000 <= r <= 0xFFFF
    ensures WithTopBit(r) == r && (r % 0x8000 + 0x40) / 0x80 == Index(r)
  {
    assert r / 0x8000 == 1 && r % 0x8000 == r - 0x8000;
  }

  method NewtonStep(rhs: nat) returns (recip: int)
    requires 0x8000 <= rhs <= 0xFFFF
    ensures recip == Reciprocal(rhs)
  {
    NormalisedIndex(rhs);
    var divisor: int := WithTopBit(rhs);
    var i := (divisor % 0x8000 + 0x40) / 0x80;
    var x: int := Seed(i);
    Arith.MulNegated(divisor, x);
    var d := (divisor * -x + 0x80) / 0x100;
    recip := (x * (0x20000 + d) + 0x80) / 0x100;
  }

  lemma Doubled(h: int, sz: int, m: int, s: int)
    ensures h * (2 * m) == 2 * (h * m) && sz * (2 * m) == 2 * (sz * m) && 2 * m * s == m * (2 * s)
  {
  }
}
