/** Clock readings that are taken before the lock, and what a reading that is taken for a rollover
    does (src/Timer.cpp). */
module TimerReadings {
  import opened Wrappers
  import opened TimerModel
  import opened TimerRuns

  // --------------------------------------------------------------- firing too early

  /** Some armed timer is not due at `c`, and the reading is taken for a rollover. */
  ghost predicate Sweeps(t: Timers, now: nat, c: nat)
    requires Known(t.recs, t.order)
  {
    && now < t.previous && (t.previous < 3_600_000 || now < t.previous - 3_600_000)
    && exists x :: x in t.order && t.recs[x].next > c
  }

  /** An expiry hands out a timer before its deadline if and only if it sweeps. */
  lemma {:induction false} EarlyIff(t: Timers, now: nat, c: nat)
    requires Good(t) && now <= c
    ensures Known(t.recs, Expire(t, now).1)
    ensures (exists x :: x in Expire(t, now).1 && t.recs[x].next > c) <==> Sweeps(t, now, c)
  {
    FiredExactly(t, now);
    var fired := Expire(t, now).1;
    if Sweeps(t, now, c) {
      var x :| x in t.order && t.recs[x].next > c;
      assert x in fired;
    }
    if x :| x in fired && t.recs[x].next > c {
      assert x in t.order && Due(t, x, now);
    }
  }

  /** What a firing is measured against: the time itself, or the reading of that expiry. */
  function Moment(f: Firing, byClock: bool): nat {
    if byClock then f.time else f.at
  }

  function Limit(e: Event, byClock: bool): nat {
    if byClock then e.at else e.now
  }

  predicate OnTime(fired: seq<Firing>, byClock: bool) {
    forall i :: 0 <= i < |fired| ==> fired[i].due <= Moment(fired[i], byClock)
  }

  ghost predicate StepOnTime(h: History, e: Event, byClock: bool)
    requires Known(h.timers.recs, h.timers.order)
  {
    e.op.DoExpire? ==> !Sweeps(h.timers, e.now, Limit(e, byClock))
  }

  lemma {:induction false} FiringsOnTime(t: Timers, fired: seq<Id>, now: nat, at: nat, byClock: bool)
    requires Known(t.recs, fired)
    ensures OnTime(Firings(t, fired, now, at), byClock) <==>
            !exists x :: x in fired && t.recs[x].next > (if byClock then at else now)
  {
    var fs := Firings(t, fired, now, at);
    assert forall i :: 0 <= i < |fs| ==> fs[i] == Firing(fired[i], now, at, t.recs[fired[i]].next,
        Rollover(t.previous, now));
    if x :| x in fired && t.recs[x].next > (if byClock then at else now) {
      var i :| 0 <= i < |fired| && fired[i] == x;
      assert fs[i].due > Moment(fs[i], byClock);
    }
  }

  lemma {:induction false} OnTimeAppend(a: seq<Firing>, b: seq<Firing>, byClock: bool)
    ensures OnTime(a + b, byClock) <==> OnTime(a, byClock) && OnTime(b, byClock)
  {
    assert forall i :: 0 <= i < |a| ==> (a + b)[i] == a[i];
    assert forall i :: 0 <= i < |b| ==> (a + b)[|a| + i] == b[i];
  }

  lemma {:induction false} AfterOnTimeIff(h: History, e: Event, byClock: bool)
    requires Good(h.timers) && Allowed(h, e) && (byClock && e.op.DoExpire? ==> e.now <= e.at)
    ensures OnTime(After(h, e).fired, byClock) <==> OnTime(h.fired, byClock) && StepOnTime(h, e, byClock)
  {
    if e.op.DoExpire? {
      var fired := Expire(h.timers, e.now).1;
      EarlyIff(h.timers, e.now, Limit(e, byClock));
      FiringsOnTime(h.timers, fired, e.now, e.at, byClock);
      OnTimeAppend(h.fired, Firings(h.timers, fired, e.now, e.at), byClock);
    }
  }

  /** Over every run, whatever the readings: no timer has fired before its deadline, measured
      against the readings, or against the clock if no expiry reads ahead of it, if and only if no
      expiry of the run has swept.  The condition can be read off the manager before each call. */
  lemma {:induction false} NeverEarlyIff(run: seq<History>, events: seq<Event>, n: nat, byClock: bool)
    requires IsRun(run, events) && n < |run|
    requires byClock ==> forall i :: 0 <= i < n && events[i].op.DoExpire? ==> events[i].now <= events[i].at
    ensures forall i :: 0 <= i < n ==> Known(run[i].timers.recs, run[i].timers.order)
    ensures OnTime(run[n].fired, byClock) <==> forall i :: 0 <= i < n ==> StepOnTime(run[i], events[i], byClock)
  {
    if n > 0 {
      NeverEarlyIff(run, events, n - 1, byClock);
      RunIsGood(run, events, n - 1);
      AfterOnTimeIff(run[n - 1], events[n - 1], byClock);
    }
  }

  /** Once an hour has passed since the epoch, readings that are up to an hour late do no harm. */
  lemma {:induction false} GracePeriod(run: seq<History>, events: seq<Event>, n: nat)
    requires IsRun(run, events) && AllTruthful(run, events) && n < |run|
    requires forall i :: 0 <= i < n && events[i].op.DoExpire? ==>
               HOUR <= run[i].timers.previous <= events[i].now + HOUR
    ensures Known(run[n].timers.recs, run[n].timers.order) && Heard(run[n]) && OnTime(run[n].fired, true)
  {
    NoLostWakeup(run, events, n);
    NeverEarlyIff(run, events, n, true);
  }

  // ------------------------------------------------------------- a reading that is late

  /** The one timer of the run below, with this deadline. */
  function Lone(next: nat, tickled: bool, previous: nat): Timers {
    Timers(map[1 := Rec(next, 1000, true, Some(7))], [1], tickled, previous)
  }

  function LateRun(): seq<History> {
    [Start(90),
     History(Lone(1095, true, 90), 90, None, true, 95, []),
     History(Lone(1095, true, 105), 90, None, true, 105, []),
     History(Lone(1095, false, 105), 107, Some(1095), false, 107, []),
     History(Lone(1092, false, 92), 107, Some(1095), false, 108, [Firing(1, 92, 108, 1095, true)])]
  }

  function LateEvents(): seq<Event> {
    [Event(DoAdd(1, 1000, Some(7), true), 95, 95), Event(DoExpire, 105, 105), Event(DoNext, 107, 107),
     Event(DoExpire, 92, 108)]
  }

  lemma {:induction false} LateAdd()
    ensures Known(LateRun()[0].timers.recs, LateRun()[0].timers.order)
    ensures After(LateRun()[0], LateEvents()[0]) == LateRun()[1]
  {
    var recs := map[1 := Rec(1095, 1000, true, Some(7))];
    assert Rank(recs, [], 1) == 0 && Inserted(recs, [], 1) == [1];
  }

  lemma {:induction false} LateExpiry(tickled: bool)
    ensures var t := Lone(1095, tickled, 105);
      Known(t.recs, t.order) && Expire(t, 92) == (Lone(1092, tickled, 92), [1])
  {
    var t := Lone(1095, tickled, 105);
    var left := t.(previous := 92, order := []);
    assert t.order[1..] == [] && t.order[..1] == [1];
    var recs := t.recs[1 := Rec(1092, 1000, true, Some(7))];
    assert recs == Lone(1092, tickled, 92).recs;
    assert Rank(recs, [], 1) == 0 && Inserted(recs, [], 1) == [1];
    assert RequeuedOne(left, 1, 92) == Lone(1092, tickled, 92);
    assert [1][1..] == [];
    assert Requeued(Lone(1092, tickled, 92), [], 92) == Lone(1092, tickled, 92);
    assert Requeued(left, [1], 92) == Requeued(RequeuedOne(left, 1, 92), [1][1..], 92);
  }

  /** On a clock that never goes back: an expiry reads 92 and gets the lock only after another one
      that has read 105.  Within the first hour this is taken for a rollover, so the timer is handed
      out about a second early, and comes back with a deadline that the sleeper sleeps beyond. */
  lemma {:induction false} LateReadingIsFatal()
    ensures IsRun(LateRun(), LateEvents()) && AllTruthful(LateRun(), LateEvents())
    ensures var h := LateRun()[4];
      Known(h.timers.recs, h.timers.order) && !Heard(h) && !OnTime(h.fired, true)
  {
    LateAdd();
    LateExpiry(false);
    var run, events := LateRun(), LateEvents();
    assert run[0] == Start(90);
    assert After(run[1], events[1]) == run[2] by {
      assert Expire(run[1].timers, 105) == (run[2].timers, []);
      assert Firings(run[1].timers, [], 105, 105) == [];
    }
    assert After(run[2], events[2]) == run[3];
    assert After(run[3], events[3]) == run[4] by {
      assert Firings(run[3].timers, [1], 92, 108) == run[4].fired;
    }
    var h := run[4];
    assert h.timers.order[0] == 1 && h.fired[0].due > Moment(h.fired[0], true);
  }
}
