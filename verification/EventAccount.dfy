/** The account of a run of the main loop: which scheduler events fire in a stretch of time, when, and what
    is left armed.

    All events but the CD-ROM controller's are one-shots: each fires once if its time comes. The
    controller's event re-arms itself, so its firings follow from the controller's own reactions.
 */
module EventAccount {
  import opened Scheduling
  import Cd = CdProtocol
  import CdRuns
  import CdRom

  /** A scheduler event that fired, when it was meant to and when it did. */
  datatype Firing = Firing(event: nat, fireAt: nat, firedAt: nat)

  /** The scheduler's events and the controller that one of them drives. */
  datatype Agenda = Agenda(events: seq<Event>, drive: Cd.Drive)
  {
    ghost predicate Good() {
      |events| == EVENT_COUNT && GoodCd(drive, events[EVENT_CDROM])
    }
  }

  /** The same as a relation, for the invariant of the machine. */
  ghost function GoodPlan(): Agenda -> bool {
    (a: Agenda) => a.Good()
  }

  lemma AllDisarmed(events: seq<Event>, now: nat)
    requires |events| == EVENT_COUNT && forall i :: 0 <= i < EVENT_COUNT ==> !events[i].active
    ensures GoodPlan()(Agenda(events, Cd.InitialDrive())) && NoneOverdue(events, now)
  {
  }

  // ---- An event that re-arms itself ----

  predicate Passed(e: Event, bound: nat) { e.active && e.fireAt < bound }

  /** Each firing leaves a good state and arms the event, if at all, for a later time. */
  ghost predicate Advances<S(!new)>(good: (S, Event) -> bool, step: (S, Event) --> (S, Event)) {
    forall s, e :: good(s, e) && e.active ==>
      step.requires(s, e) && good(step(s, e).0, step(s, e).1)
      && (step(s, e).1.active ==> step(s, e).1.fireAt > e.fireAt)
  }

  /** The state and the event after all firings before a bound, and the times at which they came. */
  datatype Chained<S> = Chained(state: S, event: Event, times: seq<nat>)

  ghost function ChainBefore<S(!new)>(good: (S, Event) -> bool, step: (S, Event) --> (S, Event), s: S, e: Event,
                                      bound: nat): Chained<S>
    requires Advances(good, step) && good(s, e)
    decreases if Passed(e, bound) then bound - e.fireAt else 0
  {
    if !Passed(e, bound) then Chained(s, e, [])
    else
      var rest := ChainBefore(good, step, step(s, e).0, step(s, e).1, bound);
      Chained(rest.state, rest.event, [e.fireAt] + rest.times)
  }

  /** The chain may be cut at any time. */
  lemma {:induction false} ChainSplits<S(!new)>(good: (S, Event) -> bool, step: (S, Event) --> (S, Event),
                                                s: S, e: Event, bound: nat, later: nat)
    requires Advances(good, step) && good(s, e) && bound <= later
    ensures var r := ChainBefore(good, step, s, e, bound);
            && good(r.state, r.event) && !Passed(r.event, bound)
            && var q := ChainBefore(good, step, r.state, r.event, later);
               ChainBefore(good, step, s, e, later) == Chained(q.state, q.event, r.times + q.times)
    decreases if Passed(e, bound) then bound - e.fireAt else 0
  {
    if Passed(e, bound) {
      var (s', e') := step(s, e);
      ChainSplits(good, step, s', e', bound, later);
      var r := ChainBefore(good, step, s', e', bound);
      var q := ChainBefore(good, step, r.state, r.event, later);
      assert [e.fireAt] + (r.times + q.times) == ([e.fireAt] + r.times) + q.times;
    } else {
      var q := ChainBefore(good, step, s, e, later);
      assert [] + q.times == q.times;
    }
  }

  /** What a count over the firings before a bound comes to. */
  ghost function ChainTotal<S(!new)>(good: (S, Event) -> bool, step: (S, Event) --> (S, Event),
                                     count: (S, Event) --> nat, s: S, e: Event, bound: nat): nat
    requires Advances(good, step) && good(s, e) && Counts(good, count)
    decreases if Passed(e, bound) then bound - e.fireAt else 0
  {
    if !Passed(e, bound) then 0
    else count(s, e) + ChainTotal(good, step, count, step(s, e).0, step(s, e).1, bound)
  }

  ghost predicate Counts<S(!new)>(good: (S, Event) -> bool, count: (S, Event) --> nat) {
    forall s, e :: good(s, e) && e.active ==> count.requires(s, e)
  }

  lemma {:induction false} TotalSplits<S(!new)>(good: (S, Event) -> bool, step: (S, Event) --> (S, Event),
                                                count: (S, Event) --> nat, s: S, e: Event, bound: nat, later: nat)
    requires Advances(good, step) && good(s, e) && bound <= later && Counts(good, count)
    ensures var r := ChainBefore(good, step, s, e, bound);
            && good(r.state, r.event)
            && ChainTotal(good, step, count, s, e, later)
               == ChainTotal(good, step, count, s, e, bound) + ChainTotal(good, step, count, r.state, r.event, later)
    decreases if Passed(e, bound) then bound - e.fireAt else 0
  {
    if Passed(e, bound) {
      TotalSplits(good, step, count, step(s, e).0, step(s, e).1, bound, later);
    }
  }

  // ---- The controller's event ----

  predicate GoodCd(d: Cd.Drive, e: Event) { CdRuns.GoodDrive(d) && (e.active <==> d.queue != []) }

  /** The event's next time, from the controller's request. */
  function Next(e: Event, wake: Cd.Option<nat>): Event {
    match wake
    case None => e.(active := false)
    case Some(delay) => Event(true, e.fireAt + delay)
  }

  /** The controller and its event after the event has fired at its time. */
  ghost function CdStep(disc: Cd.Disc): (Cd.Drive, Event) --> (Cd.Drive, Event) {
    (d, e) requires disc.Valid() => (Cd.OnEvent(d, disc).drive, Next(e, Cd.OnEvent(d, disc).wake))
  }

  lemma CdAdvances(disc: Cd.Disc)
    requires disc.Valid()
    ensures Advances(GoodCd, CdStep(disc))
  {
    forall d, e: Event | GoodCd(d, e) && e.active
      ensures var r := CdStep(disc)(d, e); GoodCd(r.0, r.1) && (r.1.active ==> r.1.fireAt > e.fireAt)
    {
      CdRuns.EventGood(d, disc);
      var q := Cd.OnEvent(d, disc).drive.queue;
      if q != [] {
        assert CdRuns.GoodEvent(q[0], Cd.OnEvent(d, disc).drive.mech.seekDelay);
      }
    }
  }

  /** The controller after all its events before a bound: no slices, only its own reactions. */
  ghost function CdBefore(disc: Cd.Disc, d: Cd.Drive, e: Event, bound: nat): Chained<Cd.Drive>
    requires disc.Valid() && GoodCd(d, e)
  {
    CdAdvances(disc);
    ChainBefore(GoodCd, CdStep(disc), d, e, bound)
  }

  /** Whether the controller raises its interrupt when its event fires: once, or not at all. */
  ghost function RaisesNow(disc: Cd.Disc): (Cd.Drive, Event) --> nat {
    (d, e) requires disc.Valid() => if Cd.OnEvent(d, disc).line == Cd.Raise then 1 else 0
  }

  /** The interrupts that the controller raises before a bound. */
  ghost function CdRaises(disc: Cd.Disc, d: Cd.Drive, e: Event, bound: nat): nat
    requires disc.Valid() && GoodCd(d, e)
  {
    CdAdvances(disc);
    ChainTotal(GoodCd, CdStep(disc), RaisesNow(disc), d, e, bound)
  }

  /** The same for one moment: whether the event is due then and raises one. */
  ghost function CdRaised(disc: Cd.Disc, a: Agenda, now: nat): nat
    requires disc.Valid() && |a.events| == EVENT_COUNT
  {
    if Due(a.events[EVENT_CDROM], now) then RaisesNow(disc)(a.drive, a.events[EVENT_CDROM]) else 0
  }

  lemma CdRaisesOnce(disc: Cd.Disc, a: Agenda, now: nat)
    requires disc.Valid() && a.Good() && NoneOverdue(a.events, now)
    ensures CdRaises(disc, a.drive, a.events[EVENT_CDROM], now + 1) == CdRaised(disc, a, now)
  {
    CdAdvances(disc);
    TotalOnce(GoodCd, CdStep(disc), RaisesNow(disc), a.drive, a.events[EVENT_CDROM], now);
  }

  lemma TotalOnce<S(!new)>(good: (S, Event) -> bool, step: (S, Event) --> (S, Event), count: (S, Event) --> nat,
                           s: S, e: Event, now: nat)
    requires Advances(good, step) && good(s, e) && Counts(good, count) && (e.active ==> now <= e.fireAt)
    ensures ChainTotal(good, step, count, s, e, now + 1) == if Due(e, now) then count(s, e) else 0
  {
  }

  lemma CdRaisesSplit(disc: Cd.Disc, d: Cd.Drive, e: Event, bound: nat, later: nat)
    requires disc.Valid() && GoodCd(d, e) && bound <= later
    ensures var r := CdBefore(disc, d, e, bound);
            && GoodCd(r.state, r.event)
            && CdRaises(disc, d, e, later) == CdRaises(disc, d, e, bound) + CdRaises(disc, r.state, r.event, later)
  {
    CdAdvances(disc);
    TotalSplits(GoodCd, CdStep(disc), RaisesNow(disc), d, e, bound, later);
  }

  // ---- What did happen ----

  function FiringsOf(fires: seq<Firing>, i: nat): seq<Firing> {
    if fires == [] then []
    else
      var n := |fires| - 1;
      FiringsOf(fires[..n], i) + (if fires[n].event == i then [fires[n]] else [])
  }

  lemma {:induction false} FiringsJoin(a: seq<Firing>, b: seq<Firing>, i: nat)
    ensures FiringsOf(a + b, i) == FiringsOf(a, i) + FiringsOf(b, i)
  {
    if b == [] {
      assert a + b == a;
    } else {
      var n := |b| - 1;
      FiringsJoin(a, b[..n], i);
      assert (a + b)[..|a + b| - 1] == a + b[..n];
    }
  }

  /** Event i, on time at each of these times. */
  function Timed(i: nat, times: seq<nat>): seq<Firing> {
    if times == [] then [] else Timed(i, times[..|times| - 1]) + [Firing(i, times[|times| - 1], times[|times| - 1])]
  }

  lemma {:induction false} TimedJoin(i: nat, a: seq<nat>, b: seq<nat>)
    ensures Timed(i, a + b) == Timed(i, a) + Timed(i, b)
  {
    if b == [] {
      assert a + b == a;
    } else {
      var n := |b| - 1;
      TimedJoin(i, a, b[..n]);
      assert (a + b)[..|a + b| - 1] == a + b[..n];
    }
  }

  // ---- The account ----

  /** A one-shot event: it has fired exactly once, on time, and is disarmed; or it has not come up, has not
      fired and is as it was. */
  predicate OneShot(e: Event, i: nat, bound: nat, f: Event, fires: seq<Firing>) {
    if Passed(e, bound) then f == e.(active := false) && FiringsOf(fires, i) == [Firing(i, e.fireAt, e.fireAt)]
    else f == e && FiringsOf(fires, i) == []
  }

  /** The controller's event: it has fired at exactly the times its own reactions lead to, and the controller
      is in the state they lead to, having raised as many interrupts as they call for. */
  ghost predicate CdAccount(disc: Cd.Disc, was: Agenda, bound: nat, now: Agenda, fires: seq<Firing>, raises: nat)
    requires disc.Valid() && was.Good() && now.Good()
  {
    var r := CdBefore(disc, was.drive, was.events[EVENT_CDROM], bound);
    && now.drive == r.state && now.events[EVENT_CDROM] == r.event
    && FiringsOf(fires, EVENT_CDROM) == Timed(EVENT_CDROM, r.times)
    && raises == CdRaises(disc, was.drive, was.events[EVENT_CDROM], bound)
  }

  predicate AllKnown(fires: seq<Firing>) {
    forall k :: 0 <= k < |fires| ==> fires[k].event < EVENT_COUNT
  }

  ghost predicate OneShots(was: seq<Event>, bound: nat, now: seq<Event>, fires: seq<Firing>)
    requires |was| == |now| == EVENT_COUNT
  {
    AllKnown(fires)
    && forall i :: 0 <= i < EVENT_COUNT && i != EVENT_CDROM ==> OneShot(was[i], i, bound, now[i], fires)
  }

  /** Everything due before `bound` has fired, exactly as often and exactly when it should, and nothing else. */
  ghost predicate Account(disc: Cd.Disc, was: Agenda, bound: nat, now: Agenda, fires: seq<Firing>, raises: nat) {
    && disc.Valid() && was.Good() && now.Good()
    && OneShots(was.events, bound, now.events, fires)
    && CdAccount(disc, was, bound, now, fires, raises)
  }

  /** Active events lie at or after `now`. */
  predicate NoneOverdue(events: seq<Event>, now: nat) {
    forall i :: 0 <= i < |events| && events[i].active ==> now <= events[i].fireAt
  }

  predicate AllAhead(events: seq<Event>, now: nat) {
    forall i :: 0 <= i < |events| && events[i].active ==> now < events[i].fireAt
  }

  lemma AccountStarts(disc: Cd.Disc, was: Agenda, now: nat)
    requires disc.Valid() && was.Good() && NoneOverdue(was.events, now)
    ensures Account(disc, was, now, was, [], 0)
  {
  }

  /** The agenda after an access to the controller's registers. */
  ghost function AfterAccess(disc: Cd.Disc, a: Agenda, now: nat, i: CdRuns.Input): Agenda
    requires disc.Valid() && |a.events| == EVENT_COUNT
  {
    var r := CdRuns.React(a.drive, disc, i);
    Agenda(CdRom.Woken(a.events, now, r.wake), r.drive)
  }

  lemma AccessKeepsGood(disc: Cd.Disc, a: Agenda, now: nat, i: CdRuns.Input)
    requires disc.Valid() && a.Good() && NoneOverdue(a.events, now) && !i.Event?
    ensures AfterAccess(disc, a, now, i).Good() && NoneOverdue(AfterAccess(disc, a, now, i).events, now)
  {
    var r := CdRuns.React(a.drive, disc, i);
    CdRuns.ArmedAfterAccess(a.drive, disc, i);
    WokenGood(a, now, r.drive, r.wake);
  }

  lemma WokenGood(a: Agenda, now: nat, d: Cd.Drive, wake: Cd.Option<nat>)
    requires a.Good() && NoneOverdue(a.events, now) && CdRuns.GoodDrive(d)
    requires d.queue != [] <==> a.drive.queue != [] || wake.Some?
    ensures Agenda(CdRom.Woken(a.events, now, wake), d).Good() && NoneOverdue(CdRom.Woken(a.events, now, wake), now)
  {
  }

  // ---- One round ----

  /** The events due at `now`, in the order the scheduler fires them. */
  function FiredAt(events: seq<Event>, now: nat): seq<Firing> {
    if events == [] then [] else
      var n := |events| - 1;
      FiredAt(events[..n], now) + (if Due(events[n], now) then [Firing(n, events[n].fireAt, now)] else [])
  }

  predicate OnTime(fires: seq<Firing>) {
    forall k :: 0 <= k < |fires| ==> fires[k].firedAt == fires[k].fireAt
  }

  lemma {:induction false} AllOnTime(events: seq<Event>, now: nat)
    requires NoneOverdue(events, now)
    ensures OnTime(FiredAt(events, now))
    ensures forall k :: 0 <= k < |FiredAt(events, now)| ==> FiredAt(events, now)[k].event < |events|
  {
    if events != [] {
      AllOnTime(events[..|events| - 1], now);
    }
  }

  lemma {:induction false} FiredOnce(events: seq<Event>, now: nat, i: nat)
    requires NoneOverdue(events, now)
    ensures FiringsOf(FiredAt(events, now), i)
            == if i < |events| && Due(events[i], now) then [Firing(i, events[i].fireAt, events[i].fireAt)] else []
  {
    if events != [] {
      var n := |events| - 1;
      FiredOnce(events[..n], now, i);
      FiringsJoin(FiredAt(events[..n], now), if Due(events[n], now) then [Firing(n, events[n].fireAt, now)] else [], i);
    }
  }

  /** The scheduler's step at `now`, then the controller's callback if its event was due. */
  ghost predicate IsRound(disc: Cd.Disc, a: Agenda, now: nat, b: Agenda)
    requires disc.Valid() && |a.events| == EVENT_COUNT && |b.events| == EVENT_COUNT
  {
    && (forall i :: 0 <= i < EVENT_COUNT && i != EVENT_CDROM ==> b.events[i] == AfterStep(a.events[i], now))
    && CdFired(disc, a.drive, a.events[EVENT_CDROM], now, b.drive, b.events[EVENT_CDROM])
  }

  predicate SteppedTo(a: seq<Event>, now: nat, b: seq<Event>) {
    |a| == |b| == EVENT_COUNT && forall i :: 0 <= i < EVENT_COUNT ==> b[i] == AfterStep(a[i], now)
  }

  /** The callback, if it was called. */
  ghost predicate Handled(disc: Cd.Disc, fired: bool, before: Agenda, now: nat, after: Agenda)
    requires disc.Valid() && |before.events| == EVENT_COUNT
  {
    if fired then
      var r := Cd.OnEvent(before.drive, disc); after == Agenda(CdRom.Woken(before.events, now, r.wake), r.drive)
    else after == before
  }

  /** One round of the loop, as the scheduler and the controller see it. */
  ghost predicate RoundFacts(disc: Cd.Disc, a: Agenda, now: nat, b: Agenda, fired: seq<Firing>, raised: nat) {
    && disc.Valid() && a.Good() && b.Good() && NoneOverdue(a.events, now) && IsRound(disc, a, now, b)
    && FiredWell(a.events, now, fired) && OnTime(fired) && raised == CdRaised(disc, a, now)
  }

  /** The scheduler's step at `now`: each due event fired once, on time, and disarmed. */
  predicate StepFacts(a: Agenda, now: nat, events: seq<Event>, fired: seq<Firing>, cdDue: bool) {
    && SteppedTo(a.events, now, events) && NoneOverdue(a.events, now)
    && FiredWell(a.events, now, fired) && OnTime(fired)
    && (cdDue <==> Due(a.events[EVENT_CDROM], now))
  }

  ghost function StepOf(): (Agenda, nat, seq<Event>, seq<Firing>, bool) -> bool {
    (a: Agenda, now: nat, events: seq<Event>, fired: seq<Firing>, cdDue: bool) =>
      a.Good() && StepFacts(a, now, events, fired, cdDue)
  }

  /** The step and the callback make a round. */
  lemma RoundDone(disc: Cd.Disc, a: Agenda, now: nat, b: Agenda, c: Agenda, fired: seq<Firing>, cdDue: bool)
    requires disc.Valid() && StepOf()(a, now, b.events, fired, cdDue) && b.drive == a.drive
    requires Handled(disc, cdDue, b, now, c)
    ensures RoundOf(disc)(a, now, c, fired, CdRaised(disc, a, now)) && c.Good() && AllAhead(c.events, now)
  {
    CallbackDone(disc, a, now, b, c, cdDue);
  }

  lemma SteppedAhead(a: seq<Event>, now: nat, b: seq<Event>)
    requires SteppedTo(a, now, b) && NoneOverdue(a, now)
    ensures AllAhead(b, now)
  {
  }

  lemma SlotAfterWake(e: Event, now: nat, events: seq<Event>, wake: Cd.Option<nat>)
    requires |events| == EVENT_COUNT && Due(e, now) && now <= e.fireAt && events[EVENT_CDROM] == AfterStep(e, now)
    ensures CdRom.Woken(events, now, wake)[EVENT_CDROM] == Next(e, wake)
  {
  }

  lemma StepAdvances<S(!new)>(good: (S, Event) -> bool, step: (S, Event) --> (S, Event), s: S, e: Event)
    requires Advances(good, step) && good(s, e) && e.active
    ensures step.requires(s, e) && good(step(s, e).0, step(s, e).1)
    ensures step(s, e).1.active ==> step(s, e).1.fireAt > e.fireAt
  {
  }

  /** What the callback leaves in the controller's slot. */
  lemma CallbackSlot(disc: Cd.Disc, d: Cd.Drive, e: Event, now: nat, events: seq<Event>)
    requires disc.Valid() && GoodCd(d, e) && Due(e, now) && now <= e.fireAt
    requires |events| == EVENT_COUNT && events[EVENT_CDROM] == AfterStep(e, now)
    ensures var r := Cd.OnEvent(d, disc); var f := CdRom.Woken(events, now, r.wake)[EVENT_CDROM];
            && (r.drive, f) == CdStep(disc)(d, e) && GoodCd(r.drive, f) && (f.active ==> now < f.fireAt)
  {
    CdAdvances(disc);
    StepAdvances(GoodCd, CdStep(disc), d, e);
    SlotAfterWake(e, now, events, Cd.OnEvent(d, disc).wake);
  }

  lemma CallbackDone(disc: Cd.Disc, a: Agenda, now: nat, b: Agenda, c: Agenda, cdDue: bool)
    requires disc.Valid() && a.Good() && SteppedTo(a.events, now, b.events) && b.drive == a.drive
    requires NoneOverdue(a.events, now) && (cdDue <==> Due(a.events[EVENT_CDROM], now))
    requires Handled(disc, cdDue, b, now, c)
    ensures c.Good() && IsRound(disc, a, now, c) && AllAhead(c.events, now)
  {
    SteppedAhead(a.events, now, b.events);
    if cdDue {
      CallbackSlot(disc, a.drive, a.events[EVENT_CDROM], now, b.events);
    }
  }

  /** The same as a relation, for the contracts of the loop. */
  ghost function RoundOf(disc: Cd.Disc): (Agenda, nat, Agenda, seq<Firing>, nat) -> bool {
    (a: Agenda, now: nat, b: Agenda, fired: seq<Firing>, raised: nat) => RoundFacts(disc, a, now, b, fired, raised)
  }

  /** What every round keeps, for an account of the rounds so far. */
  ghost predicate KeptByRounds(disc: Cd.Disc, account: (Agenda, nat, seq<Firing>, nat) -> bool) {
    forall a, bound: nat, fires, raises: nat, now: nat, b, fired, raised: nat ::
      account(a, bound, fires, raises) && bound <= now + 1 && RoundOf(disc)(a, now, b, fired, raised) ==>
        account(b, now + 1, fires + fired, raises + raised)
  }

  ghost function KeptBy(disc: Cd.Disc): ((Agenda, nat, seq<Firing>, nat) -> bool) -> bool {
    (account: (Agenda, nat, seq<Firing>, nat) -> bool) => KeptByRounds(disc, account)
  }

  lemma RoundKeeps(disc: Cd.Disc, account: (Agenda, nat, seq<Firing>, nat) -> bool, a: Agenda, bound: nat,
                   fires: seq<Firing>, raises: nat, now: nat, b: Agenda, fired: seq<Firing>, raised: nat)
    requires KeptBy(disc)(account) && account(a, bound, fires, raises) && bound <= now + 1
    requires RoundOf(disc)(a, now, b, fired, raised)
    ensures account(b, now + 1, fires + fired, raises + raised)
  {
    assert KeptByRounds(disc, account);
  }

  /** The account of what has happened since `was`. */
  ghost function AccountSince(disc: Cd.Disc, was: Agenda): (Agenda, nat, seq<Firing>, nat) -> bool {
    (a: Agenda, bound: nat, fires: seq<Firing>, raises: nat) =>
      Account(disc, was, bound, a, fires, raises) && OnTime(fires)
  }

  lemma AccountBegins(disc: Cd.Disc, was: Agenda, now: nat)
    requires disc.Valid() && was.Good() && NoneOverdue(was.events, now)
    ensures AccountSince(disc, was)(was, now, [], 0)
  {
    AccountStarts(disc, was, now);
  }

  /** Every round keeps the account. */
  lemma AccountKept(disc: Cd.Disc, was: Agenda)
    ensures KeptBy(disc)(AccountSince(disc, was))
  {
    var account, round := AccountSince(disc, was), RoundOf(disc);
    forall a, bound: nat, fires, raises: nat, now: nat, b, fired, raised: nat
      | account(a, bound, fires, raises) && bound <= now + 1 && round(a, now, b, fired, raised)
      ensures account(b, now + 1, fires + fired, raises + raised)
    {
      AccountStep(disc, was, account, round, bound, a, fires, raises, now, b, fired, raised);
    }
    KeptMeans(disc, account, round);
  }

  lemma KeptMeans(disc: Cd.Disc, account: (Agenda, nat, seq<Firing>, nat) -> bool,
                  round: (Agenda, nat, Agenda, seq<Firing>, nat) -> bool)
    requires round == RoundOf(disc)
    requires forall a, bound: nat, fires, raises: nat, now: nat, b, fired, raised: nat ::
               account(a, bound, fires, raises) && bound <= now + 1 && round(a, now, b, fired, raised) ==>
                 account(b, now + 1, fires + fired, raises + raised)
    ensures KeptBy(disc)(account)
  {
  }

  lemma AccountStep(disc: Cd.Disc, was: Agenda, account: (Agenda, nat, seq<Firing>, nat) -> bool,
                    round: (Agenda, nat, Agenda, seq<Firing>, nat) -> bool, bound: nat, a: Agenda,
                    fires: seq<Firing>, raises: nat, now: nat, b: Agenda, fired: seq<Firing>, raised: nat)
    requires account == AccountSince(disc, was) && round == RoundOf(disc)
    requires account(a, bound, fires, raises) && bound <= now + 1 && round(a, now, b, fired, raised)
    ensures account(b, now + 1, fires + fired, raises + raised)
  {
    RoundExtends(disc, was, bound, a, fires, raises, now, b, fired);
  }

  ghost predicate CdFired(disc: Cd.Disc, d: Cd.Drive, e: Event, now: nat, d': Cd.Drive, e': Event)
    requires disc.Valid()
  {
    if Due(e, now) then (d', e') == CdStep(disc)(d, e) else d' == d && e' == e
  }

  lemma CdBeforeOnce(disc: Cd.Disc, d: Cd.Drive, e: Event, now: nat, d': Cd.Drive, e': Event)
    requires disc.Valid() && GoodCd(d, e) && (e.active ==> now <= e.fireAt) && CdFired(disc, d, e, now, d', e')
    ensures CdBefore(disc, d, e, now + 1) == Chained(d', e', if Due(e, now) then [now] else [])
  {
    CdAdvances(disc);
    Once(GoodCd, CdStep(disc), d, e, now);
  }

  lemma Once<S(!new)>(good: (S, Event) -> bool, step: (S, Event) --> (S, Event), s: S, e: Event, now: nat)
    requires Advances(good, step) && good(s, e) && (e.active ==> now <= e.fireAt)
    ensures ChainBefore(good, step, s, e, now + 1)
            == if Due(e, now) then Chained(step(s, e).0, step(s, e).1, [now]) else Chained(s, e, [])
  {
    assert [now] + [] == [now];
  }

  lemma OneShotRound(e: Event, i: nat, bound: nat, f: Event, fires: seq<Firing>, now: nat, fired: seq<Firing>)
    requires OneShot(e, i, bound, f, fires) && bound <= now + 1 && (f.active ==> now <= f.fireAt)
    requires FiringsOf(fired, i) == if Due(f, now) then [Firing(i, f.fireAt, f.fireAt)] else []
    ensures OneShot(e, i, now + 1, AfterStep(f, now), fires + fired)
  {
    FiringsJoin(fires, fired, i);
  }

  lemma CdRound(disc: Cd.Disc, was: Agenda, bound: nat, a: Agenda, fires: seq<Firing>, raises: nat, now: nat,
                b: Agenda, fired: seq<Firing>)
    requires disc.Valid() && was.Good() && a.Good() && b.Good() && CdAccount(disc, was, bound, a, fires, raises)
    requires bound <= now + 1 && NoneOverdue(a.events, now)
    requires IsRound(disc, a, now, b)
    requires FiringsOf(fired, EVENT_CDROM)
             == if Due(a.events[EVENT_CDROM], now) then [Firing(EVENT_CDROM, now, now)] else []
    ensures CdAccount(disc, was, now + 1, b, fires + fired, raises + CdRaised(disc, a, now))
  {
    CdRaisesSplit(disc, was.drive, was.events[EVENT_CDROM], bound, now + 1);
    CdRaisesOnce(disc, a, now);
    var d0, e0 := was.drive, was.events[EVENT_CDROM];
    var e := a.events[EVENT_CDROM];
    FiringsJoin(fires, fired, EVENT_CDROM);
    CdAdvances(disc);
    ChainSplits(GoodCd, CdStep(disc), d0, e0, bound, now + 1);
    CdBeforeOnce(disc, a.drive, e, now, b.drive, b.events[EVENT_CDROM]);
    TimedJoin(EVENT_CDROM, CdBefore(disc, d0, e0, bound).times, if Due(e, now) then [now] else []);
    TimedOne(EVENT_CDROM, now);
  }

  lemma TimedOne(i: nat, t: nat)
    ensures Timed(i, [t]) == [Firing(i, t, t)]
  {
    assert [t][..0] == [];
  }

  /** Each due event once, on time, and no other. */
  predicate FiredWell(events: seq<Event>, now: nat, fired: seq<Firing>) {
    && AllKnown(fired)
    && forall i :: 0 <= i < |events| ==>
         FiringsOf(fired, i) == if Due(events[i], now) then [Firing(i, events[i].fireAt, events[i].fireAt)] else []
  }

  lemma FiredAtWell(events: seq<Event>, now: nat)
    requires |events| == EVENT_COUNT && NoneOverdue(events, now)
    ensures FiredWell(events, now, FiredAt(events, now)) && OnTime(FiredAt(events, now))
  {
    AllOnTime(events, now);
    forall i | 0 <= i < |events|
      ensures FiringsOf(FiredAt(events, now), i)
              == if Due(events[i], now) then [Firing(i, events[i].fireAt, events[i].fireAt)] else []
    {
      FiredOnce(events, now, i);
    }
  }

  lemma OneShotsRound(was: seq<Event>, bound: nat, a: seq<Event>, fires: seq<Firing>, now: nat, b: seq<Event>,
                      fired: seq<Firing>)
    requires |was| == |a| == |b| == EVENT_COUNT && OneShots(was, bound, a, fires) && bound <= now + 1
    requires NoneOverdue(a, now) && FiredWell(a, now, fired)
    requires forall i :: 0 <= i < EVENT_COUNT && i != EVENT_CDROM ==> b[i] == AfterStep(a[i], now)
    ensures OneShots(was, now + 1, b, fires + fired)
  {
    forall i | 0 <= i < EVENT_COUNT && i != EVENT_CDROM
      ensures OneShot(was[i], i, now + 1, b[i], fires + fired)
    {
      OneShotRound(was[i], i, bound, a[i], fires, now, fired);
    }
  }

  /** A round at `now` extends the account to everything due by then. */
  lemma RoundExtends(disc: Cd.Disc, was: Agenda, bound: nat, a: Agenda, fires: seq<Firing>, raises: nat, now: nat,
                     b: Agenda, fired: seq<Firing>)
    requires Account(disc, was, bound, a, fires, raises) && b.Good() && bound <= now + 1
    requires NoneOverdue(a.events, now) && IsRound(disc, a, now, b) && FiredWell(a.events, now, fired)
    ensures Account(disc, was, now + 1, b, fires + fired, raises + CdRaised(disc, a, now))
  {
    OneShotsRound(was.events, bound, a.events, fires, now, b.events, fired);
    CdRound(disc, was, bound, a, fires, raises, now, b, fired);
  }

  // ---- What the account says of each firing ----

  lemma {:induction false} FiringListed(fires: seq<Firing>, k: nat)
    requires k < |fires|
    ensures fires[k] in FiringsOf(fires, fires[k].event)
  {
    var n := |fires| - 1;
    if k < n {
      FiringListed(fires[..n], k);
    } else {
      assert FiringsOf(fires, fires[k].event)[|FiringsOf(fires[..n], fires[k].event)|] == fires[k];
    }
  }

  lemma {:induction false} TwoFirings(fires: seq<Firing>, j: nat, k: nat)
    requires j < k < |fires| && fires[j].event == fires[k].event
    ensures |FiringsOf(fires, fires[k].event)| >= 2
  {
    var n := |fires| - 1;
    if k < n {
      TwoFirings(fires[..n], j, k);
    } else {
      FiringListed(fires[..n], j);
      assert FiringsOf(fires[..n], fires[k].event) != [];
    }
  }

  lemma {:induction false} FiringFound(fires: seq<Firing>, i: nat) returns (k: nat)
    requires FiringsOf(fires, i) != []
    ensures k < |fires| && fires[k] == FiringsOf(fires, i)[0]
  {
    var n := |fires| - 1;
    if FiringsOf(fires[..n], i) != [] {
      k := FiringFound(fires[..n], i);
    } else {
      k := n;
    }
  }

  lemma {:induction false} TimedMember(i: nat, times: seq<nat>, f: Firing)
    requires f in Timed(i, times)
    ensures f.event == i && f.fireAt == f.firedAt && f.fireAt in times
  {
    var n := |times| - 1;
    if f in Timed(i, times[..n]) {
      TimedMember(i, times[..n], f);
    }
  }

  lemma {:induction false} ChainTimes<S(!new)>(good: (S, Event) -> bool, step: (S, Event) --> (S, Event),
                                               s: S, e: Event, bound: nat)
    requires Advances(good, step) && good(s, e)
    ensures forall k :: 0 <= k < |ChainBefore(good, step, s, e, bound).times| ==>
              e.fireAt <= ChainBefore(good, step, s, e, bound).times[k] < bound
    decreases if Passed(e, bound) then bound - e.fireAt else 0
  {
    if Passed(e, bound) {
      ChainTimes(good, step, step(s, e).0, step(s, e).1, bound);
    }
  }

  /** Every firing of the list was meant: a one-shot event that was armed for just this time, and is listed nowhere
      else; or the controller's event at one of its times. */
  lemma FiringWasMeant(disc: Cd.Disc, was: Agenda, a: Agenda, bound: nat, fires: seq<Firing>, raises: nat,
                       k: nat)
    requires AccountSince(disc, was)(a, bound, fires, raises) && k < |fires|
    ensures var f := fires[k];
            && f.firedAt == f.fireAt < bound
            && if f.event == EVENT_CDROM then
                 f.fireAt in CdBefore(disc, was.drive, was.events[EVENT_CDROM], bound).times
               else
                 f.event < EVENT_COUNT && was.events[f.event] == Event(true, f.fireAt)
                 && forall j :: 0 <= j < |fires| && fires[j].event == f.event ==> j == k
  {
    var f := fires[k];
    FiringListed(fires, k);
    if f.event == EVENT_CDROM {
      CdFiringWasMeant(disc, was, a, bound, fires, raises, f);
    } else {
      assert OneShot(was.events[f.event], f.event, bound, a.events[f.event], fires);
      forall j | 0 <= j < |fires| && fires[j].event == f.event
        ensures j == k
      {
        if j < k { TwoFirings(fires, j, k); }
        if k < j { TwoFirings(fires, k, j); }
      }
    }
  }

  lemma CdFiringWasMeant(disc: Cd.Disc, was: Agenda, a: Agenda, bound: nat, fires: seq<Firing>, raises: nat,
                         f: Firing)
    requires disc.Valid() && was.Good() && a.Good() && CdAccount(disc, was, bound, a, fires, raises)
    requires f in FiringsOf(fires, EVENT_CDROM)
    ensures f.firedAt == f.fireAt < bound
    ensures f.fireAt in CdBefore(disc, was.drive, was.events[EVENT_CDROM], bound).times
  {
    var r := CdBefore(disc, was.drive, was.events[EVENT_CDROM], bound);
    TimedMember(EVENT_CDROM, r.times, f);
    CdAdvances(disc);
    ChainTimes(GoodCd, CdStep(disc), was.drive, was.events[EVENT_CDROM], bound);
  }

  /** And every one-shot event that was due is in the list, and disarmed. */
  lemma DueEventFired(disc: Cd.Disc, was: Agenda, a: Agenda, bound: nat, fires: seq<Firing>, raises: nat,
                      i: nat)
    returns (k: nat)
    requires AccountSince(disc, was)(a, bound, fires, raises)
    requires i < EVENT_COUNT && i != EVENT_CDROM && was.events[i].active && was.events[i].fireAt < bound
    ensures k < |fires| && fires[k] == Firing(i, was.events[i].fireAt, was.events[i].fireAt) && !a.events[i].active
  {
    assert OneShot(was.events[i], i, bound, a.events[i], fires);
    k := FiringFound(fires, i);
  }
}
