/** Bytes, halfwords and words, and the two halves of a word. */
module Words {

  import opened Arith

  type Byte = b: int | 0 <= b < 0x100

  type Half = h: int | 0 <= h < 0x1_0000

  type Word = w: int | 0 <= w < 0x1_0000_0000

  function Min(a: int, b: int): int { if a < b then a else b }

  function Low(w: Word): Half { w % 0x1_0000 }

  function High(w: Word): Half { w / 0x1_0000 }

  function Joined(low: Half, high: Half): Word { low + 0x1_0000 * high }

  lemma JoinedHalves(w: Word)
    ensures Joined(Low(w), High(w)) == w
    ensures forall high: Half :: Low(Joined(Low(w), high)) == Low(w)
  {
  }

  /** Bit k of a number. */
  predicate BitAt(a: nat, k: nat) { if k == 0 then a % 2 == 1 else BitAt(a / 2, k - 1) }

  lemma {:induction false} BitAtIsBit(a: nat, k: nat)
    ensures BitAt(a, k) <==> a / Pow2(k) % 2 == 1
  {
    if k > 0 {
      BitAtIsBit(a / 2, k - 1);
      HalvedTwice(a, Pow2(k - 1));
    }
  }

  lemma SmallPowers()
    ensures Pow2(0) == 1 && Pow2(1) == 2 && Pow2(2) == 4 && Pow2(5) == 32 && Pow2(6) == 64 && Pow2(7) == 128
    ensures Pow2(9) == 512
  {
    assert Pow2(3) == 8;
    assert Pow2(6) == 64;
  }

  lemma HalvedTwice(a: nat, m: nat)
    requires m > 0
    ensures a / 2 / m == a / (2 * m)
  {
    var q, r := a / 2 / m, a / 2 % m;
    assert a == 2 * (q * m + r) + a % 2;
    QuotientUnique(a, 2 * m, q);
  }

  /** Numbers of n bits that agree in every bit are the same. */
  lemma {:induction false} SameBits(a: nat, b: nat, n: nat)
    requires a < Pow2(n) && b < Pow2(n) && forall k :: 0 <= k < n ==> (BitAt(a, k) <==> BitAt(b, k))
    ensures a == b
  {
    if n > 0 {
      assert BitAt(a, 0) <==> BitAt(b, 0);
      forall k | 0 <= k < n - 1
        ensures BitAt(a / 2, k) <==> BitAt(b / 2, k)
      {
        assert BitAt(a, k + 1) <==> BitAt(b, k + 1);
      }
      SameBits(a / 2, b / 2, n - 1);
    }
  }

  /** A sequence of words as halfwords, low half first. */
  function Halves(ws: seq<Word>): (r: seq<Half>)
    ensures |r| == 2 * |ws|
  {
    if ws == [] then [] else Halves(ws[..|ws| - 1]) + [Low(ws[|ws| - 1]), High(ws[|ws| - 1])]
  }

  lemma {:induction false} HalvesAt(ws: seq<Word>, i: nat)
    requires i < |ws|
    ensures Halves(ws)[2 * i] == Low(ws[i]) && Halves(ws)[2 * i + 1] == High(ws[i])
  {
    if i < |ws| - 1 {
      HalvesAt(ws[..|ws| - 1], i);
    }
  }

  lemma Associate<T>(a: seq<T>, b: seq<T>, c: seq<T>)
    ensures a + (b + c) == (a + b) + c
  {
  }
}
