/** The run-length code of the macroblock decoder, and why decoding it piece by piece as it arrives gives
    the same blocks as decoding it all at once.

    Parsers here take what is left of the input and return what they leave of it. A result reached without
    knowing that the input was complete is not changed by more input (`MoreInputKeepsBlock`), so it does not
    matter where the input was cut.
 */
module MdecParse {

  import opened Words

  const END: Half := 0xFE00
  const COEFFICIENTS := 64

  function Repeated(v: int, n: nat): (r: seq<int>)
    ensures |r| == n && forall i :: 0 <= i < n ==> r[i] == v
  {
    if n == 0 then [] else Repeated(v, n - 1) + [v]
  }

  type Coefficients = c: seq<int> | |c| == COEFFICIENTS witness Repeated(0, COEFFICIENTS)

  type QuantTable = q: seq<int> | |q| == COEFFICIENTS && forall i :: 0 <= i < COEFFICIENTS ==> 0 <= q[i] < 256
    witness Repeated(1, COEFFICIENTS)

  /** Where a luminance-only block's coefficients go, in order of arrival: row k / 8, entry k % 8. */
  function Zagzig(row: nat): (r: seq<nat>)
    requires row < 8
    ensures |r| == 8 && forall i :: 0 <= i < 8 ==> r[i] < COEFFICIENTS
  {
    if row == 0 then [0, 1, 8, 16, 9, 2, 3, 10]
    else if row == 1 then [17, 24, 32, 25, 18, 11, 4, 5]
    else if row == 2 then [12, 19, 26, 33, 40, 48, 41, 34]
    else if row == 3 then [27, 20, 13, 6, 7, 14, 21, 28]
    else if row == 4 then [35, 42, 49, 56, 57, 50, 43, 36]
    else if row == 5 then [29, 22, 15, 23, 30, 37, 44, 51]
    else if row == 6 then [58, 59, 52, 45, 38, 31, 39, 46]
    else [53, 60, 61, 54, 47, 55, 62, 63]
  }

  /** The same for the blocks of a colour macroblock. */
  function ColourZigzag(row: nat): (r: seq<nat>)
    requires row < 8
    ensures |r| == 8 && forall i :: 0 <= i < 8 ==> r[i] < COEFFICIENTS
  {
    if row == 0 then [0, 8, 1, 2, 9, 16, 24, 17]
    else if row == 1 then [10, 3, 4, 11, 18, 25, 32, 40]
    else if row == 2 then [33, 26, 19, 12, 5, 6, 13, 20]
    else if row == 3 then [27, 34, 41, 48, 56, 49, 42, 35]
    else if row == 4 then [28, 21, 14, 7, 15, 22, 29, 36]
    else if row == 5 then [43, 50, 57, 58, 51, 44, 37, 30]
    else if row == 6 then [23, 31, 38, 45, 52, 59, 60, 53]
    else [46, 39, 47, 54, 61, 62, 55, 63]
  }

  datatype Kind = Mono | Colour

  // ---- One coefficient ----

  function Run(h: Half): (r: nat)
    ensures r < 64
  {
    h / 1024
  }

  /** The ten-bit signed level. */
  function Level(h: Half): (r: int)
    ensures -512 <= r < 512
  {
    var v := h % 1024;
    if v >= 512 then v - 1024 else v
  }

  function Clamp(v: int, lo: int, hi: int): int { if v < lo then lo else if v > hi then hi else v }

  /** Half a step towards zero. */
  function TowardZero(level: int): int { if level < 0 then 8 else if level > 0 then -8 else 0 }

  function FirstValue(kind: Kind, h: Half, quant: nat): int {
    var q := Run(h);
    match kind
    case Mono => Clamp(Level(h) * (if q == 0 then 2 else quant), -0x400, 0x3FF)
    case Colour =>
      Clamp(if q == 0 then Level(h) * 32 else Level(h) * quant * 16 + TowardZero(Level(h)), -0x4000, 0x3FFF)
  }

  /** q: the block's quantiser scale, the run field of its first halfword. The division rounds down. */
  function LaterValue(kind: Kind, h: Half, quant: nat, q: nat): int {
    match kind
    case Mono => Clamp(if q == 0 then Level(h) * 2 else (Level(h) * quant * q + 4) / 8, -0x400, 0x3FF)
    case Colour =>
      Clamp(if q == 0 then Level(h) * 32 else Level(h) * quant * q / 8 * 16 + TowardZero(Level(h)),
            -0x4000, 0x3FFF)
  }

  function Place(kind: Kind, q: nat, k: nat): (r: nat)
    requires k < COEFFICIENTS
    ensures r < COEFFICIENTS
  {
    match kind
    case Mono => if q > 0 then Zagzig(k / 8)[k % 8] else k
    case Colour => ColourZigzag(k / 8)[k % 8]
  }

  /** A halfword that sets coefficient k. */
  datatype Arrival = Arrival(k: Index, half: Half)

  type Index = k: int | 0 <= k < 64

  type Arrivals = seq<Arrival>

  function Put(kind: Kind, quant: QuantTable, q: nat, c: Coefficients, a: Arrival): Coefficients {
    c[Place(kind, q, a.k) := if a.k == 0 then FirstValue(kind, a.half, quant[0])
                             else LaterValue(kind, a.half, quant[a.k], q)]
  }

  /** The block that a list of arrivals builds. */
  function Filled(kind: Kind, quant: QuantTable, q: nat, arrivals: Arrivals): Coefficients {
    if arrivals == [] then Zeros
    else
      var n := |arrivals| - 1;
      Put(kind, quant, q, Filled(kind, quant, q, arrivals[..n]), arrivals[n])
  }

  // ---- One block ----

  datatype Parsed<T> = Short | Done(value: T, rest: seq<Half>)

  const Zeros: Coefficients := Repeated(0, COEFFICIENTS)

  function SkipEnds(p: seq<Half>): (r: seq<Half>)
    ensures |r| <= |p| && (r != [] ==> r[0] != END)
  {
    if p != [] && p[0] == END then SkipEnds(p[1..]) else p
  }

  /** The rest of a block once coefficient k has arrived. */
  function Tail(p: seq<Half>, k: nat, arrived: Arrivals, complete: bool): (r: Parsed<Arrivals>)
    requires k < COEFFICIENTS
    ensures r.Done? ==> |r.rest| <= |p|
    decreases COEFFICIENTS - k
  {
    if k == 63 then Done(arrived, p)
    else if p == [] then (if complete then Done(arrived, p) else Short)
    else if p[0] == END then Done(arrived, p[1..])
    else
      var next := k + Run(p[0]) + 1;
      if next > 63 then Done(arrived, p[1..])
      else Tail(p[1..], next, arrived + [Arrival(next, p[0])], complete)
  }

  /** The first halfword's run field is the block's quantiser scale. */
  function Block(kind: Kind, quant: QuantTable, p: seq<Half>, complete: bool): (r: Parsed<Coefficients>)
    ensures r.Done? ==> |r.rest| < |p|
  {
    var s := SkipEnds(p);
    if s == [] then Short
    else
      match Tail(s[1..], 0, [Arrival(0, s[0])], complete)
      case Short => Short
      case Done(arrived, rest) => Done(Filled(kind, quant, Run(s[0]), arrived), rest)
  }

  lemma {:induction false} MoreInputKeepsSkip(p: seq<Half>, more: seq<Half>)
    ensures SkipEnds(p) != [] ==> SkipEnds(p + more) == SkipEnds(p) + more
  {
    if p != [] && p[0] == END {
      MoreInputKeepsSkip(p[1..], more);
      assert (p + more)[1..] == p[1..] + more;
    }
  }

  lemma {:induction false} MoreInputKeepsTail(p: seq<Half>, more: seq<Half>, k: nat, arrived: Arrivals, complete: bool)
    requires k < COEFFICIENTS && Tail(p, k, arrived, false).Done?
    ensures var r := Tail(p, k, arrived, false);
            Tail(p + more, k, arrived, complete) == Done(r.value, r.rest + more)
    decreases COEFFICIENTS - k
  {
    if k < 63 {
      assert (p + more)[1..] == p[1..] + more;
      var next := k + Run(p[0]) + 1;
      if p[0] != END && next <= 63 {
        MoreInputKeepsTail(p[1..], more, next, arrived + [Arrival(next, p[0])], complete);
      }
    }
  }

  lemma MoreInputKeepsBlock(kind: Kind, quant: QuantTable, p: seq<Half>, more: seq<Half>, complete: bool)
    requires Block(kind, quant, p, false).Done?
    ensures var r := Block(kind, quant, p, false);
            Block(kind, quant, p + more, complete) == Done(r.value, r.rest + more)
  {
    var s := SkipEnds(p);
    MoreInputKeepsSkip(p, more);
    assert (s + more)[1..] == s[1..] + more;
    MoreInputKeepsTail(s[1..], more, 0, [Arrival(0, s[0])], complete);
  }

  // ---- One unit of output: a block, or the six blocks of a colour macroblock ----

  datatype Tables = Tables(y: QuantTable, uv: QuantTable)

  /** Blocks i to 5 of a macroblock; the two colour-difference blocks come first. */
  function Macroblock(t: Tables, p: seq<Half>, i: nat, complete: bool): (r: Parsed<seq<Coefficients>>)
    requires i <= 6
    ensures r.Done? ==> |r.value| == 6 - i && |r.rest| <= |p| && (i < 6 ==> |r.rest| < |p|)
    decreases 6 - i
  {
    if i == 6 then Done([], p)
    else
      match Block(Colour, if i < 2 then t.uv else t.y, p, complete)
      case Short => Short
      case Done(c, rest) =>
        match Macroblock(t, rest, i + 1, complete)
        case Short => Short
        case Done(others, left) => Done([c] + others, left)
  }

  function Unit(kind: Kind, t: Tables, p: seq<Half>, complete: bool): (r: Parsed<seq<Coefficients>>)
    ensures r.Done? ==> |r.value| == (if kind == Mono then 1 else 6) && |r.rest| < |p|
  {
    match kind
    case Mono => (match Block(Mono, t.y, p, complete) case Short => Short case Done(c, rest) => Done([c], rest))
    case Colour => Macroblock(t, p, 0, complete)
  }

  lemma {:induction false} MoreInputKeepsMacroblock(t: Tables, p: seq<Half>, more: seq<Half>, i: nat, complete: bool)
    requires i <= 6 && Macroblock(t, p, i, false).Done?
    ensures var r := Macroblock(t, p, i, false);
            Macroblock(t, p + more, i, complete) == Done(r.value, r.rest + more)
    decreases 6 - i
  {
    if i < 6 {
      var quant := if i < 2 then t.uv else t.y;
      MoreInputKeepsBlock(Colour, quant, p, more, complete);
      MoreInputKeepsMacroblock(t, Block(Colour, quant, p, false).rest, more, i + 1, complete);
    }
  }

  lemma MoreInputKeepsUnit(kind: Kind, t: Tables, p: seq<Half>, more: seq<Half>, complete: bool)
    requires Unit(kind, t, p, false).Done?
    ensures var r := Unit(kind, t, p, false); Unit(kind, t, p + more, complete) == Done(r.value, r.rest + more)
  {
    match kind
    case Mono => MoreInputKeepsBlock(Mono, t.y, p, more, complete);
    case Colour => MoreInputKeepsMacroblock(t, p, more, 0, complete);
  }

  // ---- Everything that can be decoded ----

  datatype Decoded = Decoded(units: seq<seq<Coefficients>>, rest: seq<Half>)

  function After(units: seq<seq<Coefficients>>, d: Decoded): Decoded { Decoded(units + d.units, d.rest) }

  function Available(kind: Kind, t: Tables, p: seq<Half>, complete: bool): (r: Decoded)
    ensures |r.rest| <= |p|
    decreases |p|
  {
    if p == [] then Decoded([], p)
    else
      match Unit(kind, t, p, complete)
      case Short => Decoded([], p)
      case Done(u, rest) => After([u], Available(kind, t, rest, complete))
  }

  lemma AfterAfter(a: seq<seq<Coefficients>>, b: seq<seq<Coefficients>>, d: Decoded)
    ensures After(a, After(b, d)) == After(a + b, d) && After([], d) == d
  {
    assert a + (b + d.units) == (a + b) + d.units;
    assert [] + d.units == d.units;
  }

  /** Decoding what has come so far and going on from what is left gives what decoding it all at once gives. */
  lemma {:induction false} AvailableSplits(kind: Kind, t: Tables, p: seq<Half>, more: seq<Half>, complete: bool)
    ensures var now := Available(kind, t, p, false);
            Available(kind, t, p + more, complete) == After(now.units, Available(kind, t, now.rest + more, complete))
    decreases |p|
  {
    var now := Available(kind, t, p, false);
    var later := Available(kind, t, now.rest + more, complete);
    if p != [] && Unit(kind, t, p, false).Done? {
      MoreInputKeepsUnit(kind, t, p, more, complete);
      var u, rest := Unit(kind, t, p, false).value, Unit(kind, t, p, false).rest;
      AvailableSplits(kind, t, rest, more, complete);
      AfterAfter([u], Available(kind, t, rest, false).units, later);
    } else {
      AfterAfter([], [], later);
    }
  }
}
