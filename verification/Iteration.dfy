/** Repeating a state transition, and adding up what each repetition emits. */
module Iteration {

  function Iterate<S>(step: S -> S, s: S, n: nat): S {
    if n == 0 then s else step(Iterate(step, s, n - 1))
  }

  function Total<S>(step: S -> S, count: S -> nat, s: S, n: nat): nat {
    if n == 0 then 0 else Total(step, count, s, n - 1) + count(Iterate(step, s, n - 1))
  }

  lemma {:induction false} IterateSplits<S>(step: S -> S, s: S, m: nat, n: nat)
    ensures Iterate(step, s, m + n) == Iterate(step, Iterate(step, s, m), n)
  {
    if n > 0 {
      IterateSplits(step, s, m, n - 1);
      assert m + n - 1 == m + (n - 1);
    }
  }

  lemma {:induction false} TotalSplits<S>(step: S -> S, count: S -> nat, s: S, m: nat, n: nat)
    ensures Total(step, count, s, m + n)
            == Total(step, count, s, m) + Total(step, count, Iterate(step, s, m), n)
  {
    if n > 0 {
      TotalSplits(step, count, s, m, n - 1);
      IterateSplits(step, s, m, n - 1);
      assert m + n - 1 == m + (n - 1);
    }
  }

  function Sum(xs: seq<nat>): nat { if xs == [] then 0 else Sum(xs[..|xs| - 1]) + xs[|xs| - 1] }

  function Fold<S>(step: (S, nat) -> S, s: S, xs: seq<nat>): S {
    if xs == [] then s else step(Fold(step, s, xs[..|xs| - 1]), xs[|xs| - 1])
  }

  /** Two steps from a good state are one step of the sum, and good states stay good. */
  ghost predicate Additive<S(!new)>(step: (S, nat) -> S, ok: S -> bool) {
    (forall c, n: nat :: ok(c) ==> ok(step(c, n)))
    && (forall c, m: nat, n: nat :: ok(c) ==> step(step(c, m), n) == step(c, m + n))
  }

  /** Steps whose amounts add up can be taken in one. */
  lemma {:induction false} FoldIsSum<S(!new)>(step: (S, nat) -> S, ok: S -> bool, s: S, xs: seq<nat>)
    requires ok(s) && xs != [] && Additive(step, ok)
    ensures Fold(step, s, xs) == step(s, Sum(xs)) && ok(Fold(step, s, xs))
  {
    var n := |xs| - 1;
    if n == 0 {
      assert xs[..0] == [];
    } else {
      FoldIsSum(step, ok, s, xs[..n]);
    }
  }

  lemma {:induction false} FoldFront<S>(step: (S, nat) -> S, s: S, xs: seq<nat>)
    requires xs != []
    ensures Fold(step, s, xs) == Fold(step, step(s, xs[0]), xs[1..])
  {
    var n := |xs| - 1;
    if n > 0 {
      FoldFront(step, s, xs[..n]);
      assert xs[..n][1..] == xs[1..][..n - 1];
    }
  }

  lemma {:induction false} SumFront(xs: seq<nat>)
    requires xs != []
    ensures Sum(xs) == xs[0] + Sum(xs[1..])
  {
    var n := |xs| - 1;
    if n > 0 {
      SumFront(xs[..n]);
      assert xs[..n][1..] == xs[1..][..n - 1];
    }
  }

  // ---- Slices that keep to a limit ----

  /** Slice k is positive and within the limit of the state it starts from. */
  predicate SliceWithin<S>(step: (S, nat) -> S, limit: S -> nat, s: S, xs: seq<nat>, k: nat)
    requires k < |xs|
  {
    0 < xs[k] <= limit(Fold(step, s, xs[..k]))
  }

  predicate AllWithin<S>(step: (S, nat) -> S, limit: S -> nat, s: S, xs: seq<nat>) {
    forall k :: 0 <= k < |xs| ==> SliceWithin(step, limit, s, xs, k)
  }

  /** A slice within the limit may be cut anywhere, and the limit goes down with what has been taken. */
  ghost predicate Cuttable<S(!new)>(step: (S, nat) -> S, limit: S -> nat, ok: S -> bool) {
    && (forall s, n: nat :: ok(s) ==> ok(step(s, n)))
    && (forall s, m: nat, n: nat :: ok(s) && 0 < m && 0 < n && m + n <= limit(s) ==>
          step(step(s, m), n) == step(s, m + n) && limit(step(s, m)) == limit(s) - m)
  }

  lemma FirstSlice<S>(step: (S, nat) -> S, limit: S -> nat, s: S, xs: seq<nat>)
    requires xs != [] && AllWithin(step, limit, s, xs)
    ensures 0 < xs[0] <= limit(s) && AllWithin(step, limit, step(s, xs[0]), xs[1..])
    ensures Fold(step, s, xs) == Fold(step, step(s, xs[0]), xs[1..]) && Sum(xs) == xs[0] + Sum(xs[1..])
  {
    assert SliceWithin(step, limit, s, xs, 0) && xs[..0] == [];
    FoldFront(step, s, xs);
    SumFront(xs);
    forall k | 0 <= k < |xs| - 1
      ensures SliceWithin(step, limit, step(s, xs[0]), xs[1..], k)
    {
      assert SliceWithin(step, limit, s, xs, k + 1);
      FoldFront(step, s, xs[..k + 1]);
      assert xs[..k + 1][1..] == xs[1..][..k];
    }
  }

  lemma PutFirst<S>(step: (S, nat) -> S, limit: S -> nat, s: S, n: nat, xs: seq<nat>)
    requires 0 < n <= limit(s) && AllWithin(step, limit, step(s, n), xs)
    ensures AllWithin(step, limit, s, [n] + xs)
    ensures Fold(step, s, [n] + xs) == Fold(step, step(s, n), xs) && Sum([n] + xs) == n + Sum(xs)
  {
    var longer := [n] + xs;
    assert longer[1..] == xs;
    FoldFront(step, s, longer);
    SumFront(longer);
    forall k | 0 <= k < |longer|
      ensures SliceWithin(step, limit, s, longer, k)
    {
      if k > 0 {
        assert SliceWithin(step, limit, step(s, n), xs, k - 1);
        FoldFront(step, s, longer[..k]);
        assert longer[..k][1..] == xs[..k - 1];
      } else {
        assert longer[..0] == [];
      }
    }
  }

  /** The first slice may be cut in two. */
  lemma CutFirst<S(!new)>(step: (S, nat) -> S, limit: S -> nat, ok: S -> bool, s: S, m: nat, xs: seq<nat>)
    requires Cuttable(step, limit, ok) && ok(s) && AllWithin(step, limit, s, xs) && xs != [] && 0 < m < xs[0]
    ensures var rest := [xs[0] - m] + xs[1..];
            && AllWithin(step, limit, step(s, m), rest)
            && Fold(step, step(s, m), rest) == Fold(step, s, xs) && m + Sum(rest) == Sum(xs)
  {
    FirstSlice(step, limit, s, xs);
    var n: nat := xs[0] - m;
    assert step(step(s, m), n) == step(s, m + n);
    PutFirst(step, limit, step(s, m), n, xs[1..]);
  }

  /** Any two slicings of the same total that keep to the limit end in the same state. */
  lemma {:induction false} AnySlicing<S(!new)>(step: (S, nat) -> S, limit: S -> nat, ok: S -> bool, s: S,
                                               a: seq<nat>, b: seq<nat>)
    requires Cuttable(step, limit, ok) && ok(s) && Sum(a) == Sum(b)
    requires AllWithin(step, limit, s, a) && AllWithin(step, limit, s, b)
    ensures Fold(step, s, a) == Fold(step, s, b)
    decreases |a| + |b|
  {
    if a != [] { FirstSlice(step, limit, s, a); }
    if b != [] { FirstSlice(step, limit, s, b); }
    if a != [] && b != [] {
      if a[0] == b[0] {
        AnySlicing(step, limit, ok, step(s, a[0]), a[1..], b[1..]);
      } else if a[0] < b[0] {
        CutFirst(step, limit, ok, s, a[0], b);
        AnySlicing(step, limit, ok, step(s, a[0]), a[1..], [b[0] - a[0]] + b[1..]);
      } else {
        CutFirst(step, limit, ok, s, b[0], a);
        AnySlicing(step, limit, ok, step(s, b[0]), [a[0] - b[0]] + a[1..], b[1..]);
      }
    }
  }

  // ---- What the slices emit ----

  /** A count over the slices, each taken in the state it starts from. */
  function Over<S>(step: (S, nat) -> S, count: (S, nat) -> nat, s: S, xs: seq<nat>): nat {
    if xs == [] then 0
    else Over(step, count, s, xs[..|xs| - 1]) + count(Fold(step, s, xs[..|xs| - 1]), xs[|xs| - 1])
  }

  /** Cutting a slice within the limit leaves the count as it was. */
  ghost predicate CutCounts<S(!new)>(step: (S, nat) -> S, count: (S, nat) -> nat, limit: S -> nat, ok: S -> bool) {
    forall s, m: nat, n: nat :: ok(s) && 0 < m && 0 < n && m + n <= limit(s) ==>
      count(s, m + n) == count(s, m) + count(step(s, m), n)
  }

  /** The step that carries the count along with the state. */
  function Carried<S>(step: (S, nat) -> S, count: (S, nat) -> nat): (Tally<S>, nat) -> Tally<S> {
    (t: Tally<S>, n: nat) => Tally(step(t.state, n), t.total + count(t.state, n))
  }

  datatype Tally<S> = Tally(state: S, total: nat)

  function LimitOf<S>(limit: S -> nat): Tally<S> -> nat { (t: Tally<S>) => limit(t.state) }

  lemma {:induction false} CarriedFold<S>(step: (S, nat) -> S, count: (S, nat) -> nat, s: S, xs: seq<nat>)
    ensures Fold(Carried(step, count), Tally(s, 0), xs) == Tally(Fold(step, s, xs), Over(step, count, s, xs))
  {
    if xs != [] { CarriedFold(step, count, s, xs[..|xs| - 1]); }
  }

  lemma CarriedWithin<S>(step: (S, nat) -> S, count: (S, nat) -> nat, limit: S -> nat, s: S, xs: seq<nat>)
    requires AllWithin(step, limit, s, xs)
    ensures AllWithin(Carried(step, count), LimitOf(limit), Tally(s, 0), xs)
  {
    forall k | 0 <= k < |xs|
      ensures SliceWithin(Carried(step, count), LimitOf(limit), Tally(s, 0), xs, k)
    {
      assert SliceWithin(step, limit, s, xs, k);
      CarriedFold(step, count, s, xs[..k]);
    }
  }

  function OkOf<S>(ok: S -> bool): Tally<S> -> bool { (t: Tally<S>) => ok(t.state) }

  lemma CarriedCut<S(!new)>(step: (S, nat) -> S, count: (S, nat) -> nat, limit: S -> nat, ok: S -> bool, t: Tally<S>,
                            m: nat, n: nat)
    requires Cuttable(step, limit, ok) && CutCounts(step, count, limit, ok)
    requires ok(t.state) && 0 < m && 0 < n && m + n <= limit(t.state)
    ensures Carried(step, count)(Carried(step, count)(t, m), n) == Carried(step, count)(t, m + n)
    ensures limit(Carried(step, count)(t, m).state) == limit(t.state) - m
  {
    assert step(step(t.state, m), n) == step(t.state, m + n);
    assert count(t.state, m + n) == count(t.state, m) + count(step(t.state, m), n);
  }

  lemma CarriedCuttable<S(!new)>(step: (S, nat) -> S, count: (S, nat) -> nat, limit: S -> nat, ok: S -> bool)
    requires Cuttable(step, limit, ok) && CutCounts(step, count, limit, ok)
    ensures Cuttable(Carried(step, count), LimitOf(limit), OkOf(ok))
  {
    var carried, upTo, good := Carried(step, count), LimitOf(limit), OkOf(ok);
    forall t: Tally<S>, n: nat | good(t)
      ensures good(carried(t, n))
    {
      assert ok(step(t.state, n));
    }
    forall t: Tally<S>, m: nat, n: nat | good(t) && 0 < m && 0 < n && m + n <= upTo(t)
      ensures carried(carried(t, m), n) == carried(t, m + n) && upTo(carried(t, m)) == upTo(t) - m
    {
      CarriedCut(step, count, limit, ok, t, m, n);
    }
  }

  /** Any two slicings of the same total that keep to the limit emit alike. */
  lemma AnySlicingCounts<S(!new)>(step: (S, nat) -> S, count: (S, nat) -> nat, limit: S -> nat, ok: S -> bool, s: S,
                                  a: seq<nat>, b: seq<nat>)
    requires Cuttable(step, limit, ok) && CutCounts(step, count, limit, ok) && ok(s) && Sum(a) == Sum(b)
    requires AllWithin(step, limit, s, a) && AllWithin(step, limit, s, b)
    ensures Over(step, count, s, a) == Over(step, count, s, b)
  {
    CarriedWithin(step, count, limit, s, a);
    CarriedWithin(step, count, limit, s, b);
    CarriedFold(step, count, s, a);
    CarriedFold(step, count, s, b);
    CarriedCuttable(step, count, limit, ok);
    AnySlicing(Carried(step, count), LimitOf(limit), OkOf(ok), Tally(s, 0), a, b);
  }

  /** What slice k adds to a total that is kept by what has been taken so far. */
  predicate Adds<S, C>(step: (S, nat) -> S, count: (S, nat) -> nat, total: (C, nat) -> int, c: C, s: S, xs: seq<nat>,
                       k: nat)
    requires k < |xs|
  {
    total(c, Sum(xs[..k]) + xs[k]) == total(c, Sum(xs[..k])) + count(Fold(step, s, xs[..k]), xs[k])
  }

  lemma {:induction false} OverIsTotal<S, C>(step: (S, nat) -> S, count: (S, nat) -> nat, total: (C, nat) -> int, c: C,
                                             s: S, xs: seq<nat>, m: nat)
    requires total(c, 0) == 0 && forall k :: 0 <= k < |xs| ==> Adds(step, count, total, c, s, xs, k)
    requires m <= |xs|
    ensures Over(step, count, s, xs[..m]) == total(c, Sum(xs[..m]))
  {
    if m > 0 {
      OverIsTotal(step, count, total, c, s, xs, m - 1);
      assert Adds(step, count, total, c, s, xs, m - 1);
      assert xs[..m][..m - 1] == xs[..m - 1];
    }
  }

  /** A count that goes up once, at i == k, if at all. */
  predicate RisesAt<C>(count: (C, nat) -> nat, c: C, k: int, up: bool, i: nat) {
    count(c, i + 1) == count(c, i) + if i == k && up then 1 else 0
  }

  lemma {:induction false} RisesOnce<C>(count: (C, nat) -> nat, c: C, k: int, up: bool, n: nat)
    requires count(c, 0) == 0 && forall i :: 0 <= i < n ==> RisesAt(count, c, k, up, i)
    ensures count(c, n) == if 0 <= k < n && up then 1 else 0
  {
    if n > 0 {
      RisesOnce(count, c, k, up, n - 1);
      assert RisesAt(count, c, k, up, n - 1);
    }
  }

  /** Each step turns the flag over as often as it counts. */
  predicate TogglesAt<S>(step: S -> S, count: S -> nat, flag: S -> bool, s: S) {
    flag(step(s)) == (flag(s) == (count(s) % 2 == 0))
  }

  lemma {:induction false} TogglesInAll<S>(step: S -> S, count: S -> nat, flag: S -> bool, s: S, n: nat)
    requires forall k :: 0 <= k < n ==> TogglesAt(step, count, flag, Iterate(step, s, k))
    ensures flag(Iterate(step, s, n)) == (flag(s) == (Total(step, count, s, n) % 2 == 0))
  {
    if n > 0 {
      TogglesInAll(step, count, flag, s, n - 1);
      assert TogglesAt(step, count, flag, Iterate(step, s, n - 1));
    }
  }

  /** Two sequences that start alike and go on alike. */
  predicate GoesOn<C, S(==)>(f: (C, nat) -> S, g: (C, nat) -> S, c: C, k: nat) {
    f(c, k) == g(c, k) ==> f(c, k + 1) == g(c, k + 1)
  }

  lemma {:induction false} SameSequence<C, S>(f: (C, nat) -> S, g: (C, nat) -> S, c: C, n: nat)
    requires f(c, 0) == g(c, 0) && forall k :: 0 <= k < n ==> GoesOn(f, g, c, k)
    ensures f(c, n) == g(c, n)
  {
    if n > 0 {
      SameSequence(f, g, c, n - 1);
      assert GoesOn(f, g, c, n - 1);
    }
  }
}
