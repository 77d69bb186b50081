/** Small facts about products and quotients that the solver needs to be given one at a time. */
module Arith {

  function Abs(n: int): nat { if n < 0 then -n else n }

  lemma MulMono(x: int, y: int, k: int)
    requires x <= y && 0 <= k
    ensures k * x <= k * y && x * k <= y * k
  {
  }

  lemma MulLess(x: int, y: int, k: int)
    requires x < y && 0 < k
    ensures k * x < k * y && x * k < y * k
  {
  }

  lemma MulPos(x: int, y: int)
    requires 0 <= x && 0 <= y
    ensures 0 <= x * y
    ensures 0 < x && 0 < y ==> 0 < x * y
  {
  }

  lemma MulAssoc(x: int, y: int, z: int)
    ensures x * y * z == x * (y * z)
  {
  }

  lemma CancelLess(x: int, y: int, k: int)
    requires x * k < y * k && 0 < k
    ensures x < y
  {
  }

  lemma MulSum(k: int, x: int, y: int)
    ensures k * (x + y) == k * x + k * y && (x + y) * k == x * k + y * k
  {
  }

  lemma MulNegated(x: int, y: int)
    ensures -x * y == -(x * y) && x * -y == -(x * y) && -x * -y == x * y
  {
  }

  lemma CeilDiv(x: nat, n: nat)
    requires n > 0
    ensures var r := (x + n - 1) / n; x <= r * n < x + n
  {
    var r := (x + n - 1) / n;
    assert r * n == x + n - 1 - (x + n - 1) % n;
  }

  lemma FloorDiv(x: nat, n: nat)
    requires n > 0
    ensures var r := x / n; r * n <= x < (r + 1) * n
  {
    assert x == x / n * n + x % n;
  }

  lemma QuotientUnique(x: int, n: int, q: int)
    requires 0 < n && q * n <= x < q * n + n
    ensures x / n == q && x % n == x - q * n
  {
    var r := x / n;
    assert x == n * r + x % n;
    if r < q { MulMono(r + 1, q, n); MulSum(n, r, 1); }
    if r > q { MulMono(q + 1, r, n); MulSum(n, q, 1); }
  }

  /** Adding whole multiples of n. */
  lemma AddMultiple(x: int, n: int, k: int)
    requires 0 < n
    ensures (x + k * n) / n == x / n + k && (x + k * n) % n == x % n
  {
    MulSum(n, x / n, k);
    QuotientUnique(x + k * n, n, x / n + k);
  }

  /** Counting up by at most n. */
  lemma AddDivMod(x: int, n: int, d: int)
    requires 0 < n && 0 <= d <= n
    ensures if x % n + d >= n then (x + d) / n == x / n + 1 && (x + d) % n == x % n + d - n
            else (x + d) / n == x / n && (x + d) % n == x % n + d
  {
    var q, r := x / n, x % n;
    assert x == n * q + r;
    MulSum(n, q, 1);
    if r + d >= n {
      QuotientUnique(x + d, n, q + 1);
    } else {
      QuotientUnique(x + d, n, q);
    }
  }

  lemma DivMonotone(x: int, y: int, n: int)
    requires 0 < n && x <= y
    ensures x / n <= y / n
  {
    var q, r := x / n, y / n;
    if r < q { MulMono(r + 1, q, n); MulSum(n, r, 1); }
  }

  function Pow2(n: nat): (r: nat)
    ensures r > 0
  {
    if n == 0 then 1 else 2 * Pow2(n - 1)
  }
}
