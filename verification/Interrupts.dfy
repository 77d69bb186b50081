/** The interrupt status register, with a ghost record of every assertion made. */
module Interrupts {

  datatype Source = Vblank | Cdrom | Dma | Timer0 | Timer1 | Timer2 | Sio | Spu

  function Sources(raised: seq<Source>): set<Source> { set s | s in raised }

  function Copies(s: Source, n: nat): (r: seq<Source>)
    ensures |r| == n && forall i :: 0 <= i < n ==> r[i] == s
  {
    seq(n, i => s)
  }

  /** The lines that are up, and every assertion so far. */
  datatype Lines = Lines(status: set<Source>, asserted: seq<Source>)
  {
    function After(raised: seq<Source>): Lines { Lines(status + Sources(raised), asserted + raised) }

    function AfterIf(up: bool, s: Source): Lines { if up then After([s]) else this }

    function LoweredIf(down: bool, s: Source): Lines { if down then this.(status := status - {s}) else this }
  }

  lemma AfterBoth(l: Lines, a: seq<Source>, b: seq<Source>)
    ensures l.After(a).After(b) == l.After(a + b)
  {
  }

  lemma AfterNone(l: Lines)
    ensures l.After([]) == l
  {
    assert l.asserted + [] == l.asserted;
  }

  lemma AfterOne(l: Lines, up: bool, s: Source)
    ensures l.AfterIf(up, s) == l.After(Copies(s, if up then 1 else 0))
  {
    AfterNone(l);
    assert Copies(s, 1) == [s] && Copies(s, 0) == [];
  }

  lemma MoreCopies(l: Lines, s: Source, m: nat, n: nat)
    ensures l.After(Copies(s, m)).After(Copies(s, n)) == l.After(Copies(s, m + n))
  {
    AfterBoth(l, Copies(s, m), Copies(s, n));
    assert Copies(s, m) + Copies(s, n) == Copies(s, m + n);
  }

  class Irq {
    var status: set<Source>
    ghost var asserted: seq<Source>

    ghost function State(): Lines
      reads this
    {
      Lines(status, asserted)
    }

    constructor ()
      ensures State() == Lines({}, [])
    {
      status, asserted := {}, [];
    }

    method Assert(s: Source)
      modifies this
      ensures State() == old(State()).After([s])
    {
      status := status + {s};
      asserted := asserted + [s];
      assert Sources([s]) == {s};
    }

    method Deassert(s: Source)
      modifies this
      ensures State() == old(State()).LoweredIf(true, s)
    {
      status := status - {s};
    }
  }
}
