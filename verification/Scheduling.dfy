/** The event scheduler: thirteen one-shot events with absolute firing times. */
module Scheduling {
  import opened Interrupts

  const EVENT_COUNT := 13
  const EVENT_CDROM := 4
  const U32_MAX := 0xFFFF_FFFF

  datatype Event = Event(active: bool, fireAt: nat)

  predicate Due(e: Event, now: nat) { e.active && now >= e.fireAt }

  function AfterStep(e: Event, now: nat): Event { e.(active := e.active && !Due(e, now)) }

  /** The interrupt an event asserts by itself when it fires. */
  predicate AssertsItself(i: nat) { 1 <= i <= 3 || i == 5 }

  function SourceOf(i: nat): Source {
    match i
    case 1 => Timer0
    case 2 => Timer1
    case 3 => Timer2
    case _ => Spu
  }

  /** Interrupts that the first n events assert by falling due. */
  function RaisedBy(events: seq<Event>, now: nat, n: nat): seq<Source>
    requires n <= |events|
  {
    if n == 0 then [] else RaisedBy(events, now, n - 1) + RaisedOne(events[n - 1], n - 1, now)
  }

  function RaisedOne(e: Event, i: nat, now: nat): seq<Source> {
    if Due(e, now) && AssertsItself(i) then [SourceOf(i)] else []
  }

  lemma RaisedOneMore(l: Lines, events: seq<Event>, now: nat, i: nat)
    requires i < |events|
    ensures l.After(RaisedBy(events, now, i + 1))
            == l.After(RaisedBy(events, now, i)).AfterIf(Due(events[i], now) && AssertsItself(i), SourceOf(i))
  {
    AfterBoth(l, RaisedBy(events, now, i), RaisedOne(events[i], i, now));
    AfterNone(l.After(RaisedBy(events, now, i)));
  }

  class Scheduler {
    var currentCycle: nat
    const events: array<Event>

    ghost predicate Valid()
    {
      events.Length == EVENT_COUNT
    }

    constructor ()
      ensures Valid() && fresh(events) && currentCycle == 0
      ensures forall i :: 0 <= i < EVENT_COUNT ==> events[i] == Event(false, 0)
    {
      currentCycle := 0;
      events := new Event[EVENT_COUNT](i => Event(false, 0));
    }

    method Schedule(i: nat, delta: nat)
      requires Valid() && i < EVENT_COUNT
      modifies events
      ensures events[..] == old(events[..])[i := Event(true, currentCycle + delta)]
    {
      events[i] := Event(true, currentCycle + delta);
    }

    method Cancel(i: nat)
      requires Valid() && i < EVENT_COUNT
      modifies events
      ensures events[..] == old(events[..])[i := old(events[i]).(active := false)]
    {
      events[i] := events[i].(active := false);
    }

    /** The exact distance to the nearest active event, saturating at 32 bits; zero if one is due. */
    method CyclesUntilNext() returns (delta: nat)
      requires Valid()
      ensures delta <= U32_MAX
      ensures forall i :: 0 <= i < EVENT_COUNT && events[i].active ==>
                events[i].fireAt <= currentCycle || currentCycle + delta <= events[i].fireAt
      ensures delta == 0 <==> exists i :: 0 <= i < EVENT_COUNT && Due(events[i], currentCycle)
      ensures delta == U32_MAX || delta == 0
              || exists i :: 0 <= i < EVENT_COUNT && events[i] == Event(true, currentCycle + delta)
    {
      var found, nearest := false, 0;
      for i := 0 to EVENT_COUNT
        invariant nearest >= 0
        invariant found <==> exists k :: 0 <= k < i && events[k].active
        invariant found ==> exists k :: 0 <= k < i && events[k] == Event(true, nearest)
        invariant forall k :: 0 <= k < i && events[k].active ==> nearest <= events[k].fireAt
      {
        if events[i].active && (!found || events[i].fireAt < nearest) {
          found, nearest := true, events[i].fireAt;
        }
      }
      if !found { return U32_MAX; }
      if nearest <= currentCycle { return 0; }
      delta := nearest - currentCycle;
      if delta > U32_MAX { delta := U32_MAX; }
    }

    /** Time passes; every event due by then fires once and is disarmed, and no other event changes. */
    method Step(cycles: nat, irq: Irq) returns (fired: set<nat>)
      requires Valid()
      modifies this`currentCycle, events, irq
      ensures currentCycle == old(currentCycle) + cycles
      ensures fired == set i | 0 <= i < EVENT_COUNT && Due(old(events[..])[i], currentCycle)
      ensures forall i :: 0 <= i < EVENT_COUNT ==> events[i] == AfterStep(old(events[..])[i], currentCycle)
      ensures irq.State() == old(irq.State()).After(RaisedBy(old(events[..]), currentCycle, EVENT_COUNT))
    {
      ghost var was, lines := events[..], irq.State();
      AfterNone(lines);
      currentCycle := currentCycle + cycles;
      fired := {};
      for i := 0 to EVENT_COUNT
        invariant currentCycle == old(currentCycle) + cycles
        invariant fired == set k | 0 <= k < i && Due(was[k], currentCycle)
        invariant forall k :: 0 <= k < i ==> events[k] == AfterStep(was[k], currentCycle)
        invariant forall k :: i <= k < EVENT_COUNT ==> events[k] == was[k]
        invariant irq.State() == lines.After(RaisedBy(was, currentCycle, i))
      {
        RaisedOneMore(lines, was, currentCycle, i);
        if events[i].active && currentCycle >= events[i].fireAt {
          events[i] := events[i].(active := false);
          fired := fired + {i};
          if AssertsItself(i) { irq.Assert(SourceOf(i)); }
        }
      }
    }
  }
}
