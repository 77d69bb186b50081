/** The other direction of the run-length code: a block as an encoder writes it, and that the decoder reads from it
    exactly the levels that were written, whatever follows.
 */
module MdecEncoding {

  import opened MdecParse
  import opened MdecMeaning
  import opened Words

  /** A coefficient number and its level. */
  datatype Coded = Coded(k: Index, level: int)

  /** These can be written after coefficient k: numbers increase, and no halfword looks like the end of a block. */
  predicate CodedAfter(k: nat, coded: seq<Coded>)
    decreases |coded|
  {
    coded == []
    || (k < coded[0].k && -512 <= coded[0].level < 512 && HalfOf(coded[0].k - k - 1, coded[0].level) != END
        && CodedAfter(coded[0].k, coded[1..]))
  }

  /** The halfwords for them: the run of zeros before each and its level, then the end of the block unless the last
      coefficient has been written. */
  function CodedTail(k: nat, coded: seq<Coded>): seq<Half>
    requires CodedAfter(k, coded)
    decreases |coded|
  {
    if coded == [] then (if k == 63 then [] else [END])
    else [HalfOf(coded[0].k - k - 1, coded[0].level)] + CodedTail(coded[0].k, coded[1..])
  }

  function Arrived(k: nat, coded: seq<Coded>): (r: Arrivals)
    requires CodedAfter(k, coded)
    ensures |r| == |coded|
    decreases |coded|
  {
    if coded == [] then []
    else [Arrival(coded[0].k, HalfOf(coded[0].k - k - 1, coded[0].level))] + Arrived(coded[0].k, coded[1..])
  }

  lemma {:induction false} TailDecodes(k: nat, coded: seq<Coded>, arrived: Arrivals, more: seq<Half>, complete: bool)
    requires k < COEFFICIENTS && CodedAfter(k, coded)
    ensures Tail(CodedTail(k, coded) + more, k, arrived, complete) == Done(arrived + Arrived(k, coded), more)
    decreases |coded|
  {
    var p := CodedTail(k, coded) + more;
    if coded == [] {
      assert arrived + [] == arrived;
      if k == 63 { assert p == more; } else { assert p[1..] == more; }
    } else {
      var a := Arrival(coded[0].k, HalfOf(coded[0].k - k - 1, coded[0].level));
      HalfRoundTrip(coded[0].k - k - 1, coded[0].level);
      assert p[0] == a.half && p[1..] == CodedTail(coded[0].k, coded[1..]) + more;
      TailDecodes(coded[0].k, coded[1..], arrived + [a], more, complete);
      Associate(arrived, [a], Arrived(coded[0].k, coded[1..]));
    }
  }

  lemma {:induction false} ArrivedAt(k: nat, coded: seq<Coded>, i: nat)
    requires CodedAfter(k, coded) && i < |coded|
    ensures var a := Arrived(k, coded)[i]; a.k == coded[i].k && Level(a.half) == coded[i].level
    decreases |coded|
  {
    HalfRoundTrip(coded[0].k - k - 1, coded[0].level);
    if i > 0 {
      ArrivedAt(coded[0].k, coded[1..], i - 1);
    }
  }

  /** A block of scale q: the first level, which always has number 0, and the others. */
  predicate Encodable(q: nat, first: int, coded: seq<Coded>) {
    q < 64 && -512 <= first < 512 && HalfOf(q, first) != END && CodedAfter(0, coded)
  }

  function EncodedBlock(q: nat, first: int, coded: seq<Coded>): seq<Half>
    requires Encodable(q, first, coded)
  {
    [HalfOf(q, first)] + CodedTail(0, coded)
  }

  lemma EncodedArrives(q: nat, first: int, coded: seq<Coded>, more: seq<Half>, complete: bool)
    requires Encodable(q, first, coded)
    ensures var s := SkipEnds(EncodedBlock(q, first, coded) + more);
            && s != [] && Run(s[0]) == q && Level(s[0]) == first
            && Tail(s[1..], 0, [Arrival(0, s[0])], complete)
               == Done([Arrival(0, HalfOf(q, first))] + Arrived(0, coded), more)
  {
    var p := EncodedBlock(q, first, coded) + more;
    HalfRoundTrip(q, first);
    assert SkipEnds(p) == p && p[1..] == CodedTail(0, coded) + more;
    TailDecodes(0, coded, [Arrival(0, HalfOf(q, first))], more, complete);
  }

  /** The decoder takes exactly the encoded block off the input; each coefficient then holds what its level means, and
      every coefficient that was not written is zero. */
  lemma EncodedBlockDecodes(kind: Kind, quant: QuantTable, q: nat, first: int, coded: seq<Coded>, more: seq<Half>,
                            complete: bool, i: nat, cell: nat)
    requires Encodable(q, first, coded) && cell < COEFFICIENTS
    ensures var r := Block(kind, quant, EncodedBlock(q, first, coded) + more, complete);
            && r.Done? && r.rest == more
            && Means(kind, q, 0, first, quant[0], r.value[Place(kind, q, 0)])
            && (i < |coded| ==>
                  var k := coded[i].k; Means(kind, q, k, coded[i].level, quant[k], r.value[Place(kind, q, k)]))
            && (cell != Place(kind, q, 0) && (forall j :: 0 <= j < |coded| ==> cell != Place(kind, q, coded[j].k)) ==>
                  r.value[cell] == 0)
  {
    var p := EncodedBlock(q, first, coded) + more;
    EncodedArrives(q, first, coded, more, complete);
    BlockMeaning(kind, quant, p, complete, 0, cell);
    BlockMeaning(kind, quant, p, complete, i + 1, cell);
    forall j | 0 <= j < |coded|
      ensures Arrived(0, coded)[j].k == coded[j].k && Level(Arrived(0, coded)[j].half) == coded[j].level
    {
      ArrivedAt(0, coded, j);
    }
  }
}
