/** What holds over whole runs of a timer manager. */
module TimerRuns {
  import opened Wrappers
  import opened TimerModel

  // ------------------------------------------------------ the set stays in order

  lemma ArmedIsGood(t: Timers, x: Id)
    requires Known(t.recs, t.order) && Sorted(t.recs, t.order) && x in t.recs && x !in t.order
    requires forall y :: y in t.recs && t.recs[y].cb.Some? ==> y in t.order || y == x
    requires forall y :: y in t.recs ==> t.recs[y].ms <= t.recs[y].next
    ensures Good(Armed(t, x).0)
    ensures forall y :: y in Armed(t, x).0.order <==> y in t.order || y == x
  {
    InsertedIsSorted(t.recs, t.order, x);
  }

  lemma AddIsGood(t: Timers, x: Id, ms: nat, cb: Option<Callback>, recurring: bool, now: nat)
    requires Good(t) && x !in t.recs
    ensures Good(Add(t, x, ms, cb, recurring, now).0)
    ensures forall y :: y in Add(t, x, ms, cb, recurring, now).0.order <==> y in t.order || y == x
  {
    var recs := t.recs[x := Rec(now + ms, ms, recurring, cb)];
    SortedElsewhere(t.recs, recs, t.order);
    ArmedIsGood(t.(recs := recs), x);
  }

  /** Taking a timer out, changing its record and putting it back. */
  lemma MovedIsGood(t: Timers, x: Id, rec: Rec)
    requires Good(t) && x in t.order && rec.ms <= rec.next
    ensures var recs, order := t.recs[x := rec], Erased(t.order, x);
            && Known(recs, order) && Sorted(recs, order) && x !in order
            && (forall y :: y in recs && recs[y].cb.Some? ==> y in order || y == x)
            && (forall y :: y in recs ==> recs[y].ms <= recs[y].next)
            && (forall y :: y in order <==> y in t.order && y != x)
  {
    ErasedIsSorted(t.recs, t.order, x);
    SortedElsewhere(t.recs, t.recs[x := rec], Erased(t.order, x));
  }

  /** `t` with `x` taken out, given a new record and put back. */
  function Moved(t: Timers, x: Id, rec: Rec): Timers
    requires Known(t.recs, t.order) && Known(t.recs, Erased(t.order, x))
  {
    var recs := t.recs[x := rec];
    t.(recs := recs, order := Inserted(recs, Erased(t.order, x), x))
  }

  lemma ReinsertedIsGood(t: Timers, x: Id, rec: Rec)
    requires Good(t) && x in t.order && rec.ms <= rec.next
    ensures Known(t.recs, Erased(t.order, x)) && Good(Moved(t, x, rec))
    ensures forall y :: y in Moved(t, x, rec).order <==> y in t.order
  {
    MovedIsGood(t, x, rec);
    ErasedIsSorted(t.recs, t.order, x);
    InsertedIsSorted(t.recs[x := rec], Erased(t.order, x), x);
  }

  lemma {:induction false} RefreshMoves(t: Timers, x: Id, now: nat)
    requires Good(t) && x in t.recs && t.recs[x].cb.Some?
    ensures Refresh(t, x, now) == (Moved(t, x, t.recs[x].(next := now + t.recs[x].ms)), true)
  {
  }

  lemma {:induction false} RefreshIsGood(t: Timers, x: Id, now: nat)
    requires Good(t) && x in t.recs
    ensures Good(Refresh(t, x, now).0)
    ensures forall y :: y in Refresh(t, x, now).0.order <==> y in t.order
    ensures Refresh(t, x, now).1 <==> t.recs[x].cb.Some?
  {
    if t.recs[x].cb.Some? {
      var rec := t.recs[x].(next := now + t.recs[x].ms);
      ReinsertedIsGood(t, x, rec);
      RefreshMoves(t, x, now);
    }
  }

  /** `cancel` erases what `find` returns without looking; the timer is always there. */
  lemma CancelIsGood(t: Timers, x: Id)
    requires Good(t) && x in t.recs
    ensures Good(Cancel(t, x).0)
    ensures Cancel(t, x).1 ==> x in t.order && x !in Cancel(t, x).0.order
    ensures forall y :: y in Cancel(t, x).0.order ==> y in t.order
    ensures forall y :: y in t.order && y != x ==> y in Cancel(t, x).0.order
  {
    if t.recs[x].cb.Some? {
      MovedIsGood(t, x, t.recs[x].(cb := None));
    }
  }

  lemma ResetMoves(t: Timers, x: Id, ms: nat, fromNow: bool, now: nat)
    requires Good(t) && x in t.recs && t.recs[x].cb.Some?
    requires !(ms == t.recs[x].ms && !fromNow)
    ensures Known(t.recs, Erased(t.order, x))
    ensures var r := Reset(t, x, ms, fromNow, now);
            && r.ok
            && r.timers == Moved(t, x, ResetRec(t.recs[x], ms, fromNow, now)).(tickled := r.timers.tickled)
            && r.timers.tickled == (t.tickled || r.woke)
            && r.woke == (Rank(r.timers.recs, Erased(t.order, x), x) == 0 && !t.tickled)
  {
    ErasedIsSorted(t.recs, t.order, x);
  }

  lemma ResetIsGood(t: Timers, x: Id, ms: nat, fromNow: bool, now: nat)
    requires Good(t) && x in t.recs
    ensures Good(Reset(t, x, ms, fromNow, now).timers)
    ensures forall y :: y in Reset(t, x, ms, fromNow, now).timers.order <==> y in t.order
  {
    if !(ms == t.recs[x].ms && !fromNow) && t.recs[x].cb.Some? {
      ResetMoves(t, x, ms, fromNow, now);
      ReinsertedIsGood(t, x, ResetRec(t.recs[x], ms, fromNow, now));
    }
  }

  // ----------------------------------------------------------------- expiration

  predicate Distinct(order: seq<Id>) {
    forall i, j :: 0 <= i < j < |order| ==> order[i] != order[j]
  }

  /** A timer's record after it has expired. */
  function AfterExpiry(r: Rec, now: nat): Rec {
    if r.recurring then r.(next := now + r.ms) else r.(cb := None)
  }

  lemma RequeuedOneExactly(t: Timers, x: Id, now: nat)
    requires Known(t.recs, t.order) && Sorted(t.recs, t.order) && x in t.recs && x !in t.order
    ensures var r := RequeuedOne(t, x, now);
            && Sorted(r.recs, r.order)
            && r.tickled == t.tickled && r.previous == t.previous
            && r.recs == t.recs[x := AfterExpiry(t.recs[x], now)]
            && (forall y :: y in r.order <==> y in t.order || (y == x && t.recs[x].recurring))
  {
    var recs := t.recs[x := AfterExpiry(t.recs[x], now)];
    SortedElsewhere(t.recs, recs, t.order);
    if t.recs[x].recurring {
      InsertedIsSorted(recs, t.order, x);
    }
  }

  lemma {:induction false} RequeuedExactly(t: Timers, expired: seq<Id>, now: nat)
    requires Known(t.recs, t.order) && Sorted(t.recs, t.order) && Known(t.recs, expired) && Distinct(expired)
    requires forall x :: x in expired ==> x !in t.order
    ensures var r := Requeued(t, expired, now);
            && Sorted(r.recs, r.order)
            && r.tickled == t.tickled && r.previous == t.previous
            && (forall x :: x in t.recs ==>
                  r.recs[x] == if x in expired then AfterExpiry(t.recs[x], now) else t.recs[x])
            && (forall x :: x in r.order <==> x in t.order || (x in expired && t.recs[x].recurring))
    decreases expired
  {
    if expired != [] {
      var x, rest := expired[0], expired[1..];
      assert forall y :: y in expired <==> y == x || y in rest;
      assert x !in rest;
      var t' := RequeuedOne(t, x, now);
      RequeuedOneExactly(t, x, now);
      RequeuedExactly(t', rest, now);
      assert Requeued(t, expired, now) == Requeued(t', rest, now);
    }
  }

  lemma SortedIsDistinct(t: Timers)
    requires Good(t)
    ensures Distinct(t.order)
  {
    forall i, j | 0 <= i < j < |t.order|
      ensures t.order[i] != t.order[j]
    {
      assert Before(t.recs, t.order[i], t.order[j]);
    }
  }

  /** The timers that `listExpiredCb` takes: the due ones, or all after a rollover. */
  predicate Due(t: Timers, x: Id, now: nat)
    requires x in t.recs
  {
    Rollover(t.previous, now) || t.recs[x].next <= now
  }

  lemma DuePrefix(t: Timers, now: nat)
    requires Good(t)
    ensures var n := if Rollover(t.previous, now) then |t.order| else DueCount(t.recs, t.order, now);
            && Expire(t, now).1 == t.order[..n]
            && (forall i :: 0 <= i < |t.order| ==> (i < n <==> Due(t, t.order[i], now)))
  {
    var n := DueCount(t.recs, t.order, now);
    forall i | n <= i < |t.order|
      ensures t.recs[t.order[i]].next > now
    {
      assert i > n ==> Before(t.recs, t.order[n], t.order[i]);
    }
  }

  /** The timers handed out are the due ones, earliest deadline first. */
  lemma FiredExactly(t: Timers, now: nat)
    requires Good(t)
    ensures var fired := Expire(t, now).1;
            && Distinct(fired) && Known(t.recs, fired)
            && (forall x :: x in fired <==> x in t.order && Due(t, x, now))
            && (forall i, j :: 0 <= i < j < |fired| ==> t.recs[fired[i]].next <= t.recs[fired[j]].next)
            && fired <= t.order
            && (forall x :: x in t.order[|fired|..] <==> x in t.order && !Due(t, x, now))
  {
    DuePrefix(t, now);
    SortedIsDistinct(t);
    var fired := Expire(t, now).1;
    assert forall i, j :: 0 <= i < j < |fired| ==> Before(t.recs, fired[i], fired[j]);
    forall x | x in t.order && !Due(t, x, now)
      ensures x in t.order[|fired|..]
    {
      var i :| 0 <= i < |t.order| && t.order[i] == x;
      assert t.order[|fired|..][i - |fired|] == x;
    }
  }

  lemma ExpireIsRequeue(t: Timers, now: nat)
    requires Good(t) && t.order != []
    ensures var (r, fired) := Expire(t, now);
            fired <= t.order && r == Requeued(t.(previous := now, order := t.order[|fired|..]), fired, now)
  {
    DuePrefix(t, now);
  }

  /** What stays armed while the expired timers are put back. */
  lemma {:induction false} RestIsReady(t: Timers, now: nat)
    requires Good(t)
    ensures var fired := Expire(t, now).1;
            var rest := t.order[|fired|..];
            && Known(t.recs, fired) && Distinct(fired) && Known(t.recs, rest) && Sorted(t.recs, rest)
            && (forall x :: x in fired ==> x !in rest)
            && (forall x :: x in t.order <==> x in fired || x in rest)
  {
    FiredExactly(t, now);
    SortedElsewhere(t.recs, t.recs, t.order);
  }

  lemma {:induction false} ExpireResult(t: Timers, now: nat)
    requires Good(t)
    ensures var (r, fired) := Expire(t, now);
            && Known(r.recs, r.order) && Sorted(r.recs, r.order)
            && r.recs.Keys == t.recs.Keys && r.tickled == t.tickled
            && (t.order != [] ==> r.previous == now)
            && (forall x :: x in t.recs ==> r.recs[x] == if x in fired then AfterExpiry(t.recs[x], now) else t.recs[x])
            && (forall x :: x in r.order <==> x in t.order && (x in fired ==> t.recs[x].recurring))
  {
    if t.order != [] {
      RestIsReady(t, now);
      var fired := Expire(t, now).1;
      var t' := t.(previous := now, order := t.order[|fired|..]);
      ExpireIsRequeue(t, now);
      RequeuedExactly(t', fired, now);
    }
  }

  /** `listExpiredCb` hands out exactly the due timers, earliest deadline first; a recurring
      one is re-armed one period from now, a one-shot one loses its callback and leaves the
      set, every other timer is untouched; without a rollover what is armed afterwards is
      not due, save a recurring timer of period zero; and the set is strictly sorted. */
  lemma ExpireExactly(t: Timers, now: nat)
    requires Good(t)
    ensures var (r, fired) := Expire(t, now);
            && Good(r)
            && Distinct(fired)
            && (forall x :: x in fired <==> x in t.order && Due(t, x, now))
            && (forall i, j :: 0 <= i < j < |fired| && fired[i] in t.recs && fired[j] in t.recs ==>
                  t.recs[fired[i]].next <= t.recs[fired[j]].next)
            && r.recs.Keys == t.recs.Keys
            && (forall x :: x in t.recs ==> r.recs[x] == if x in fired then AfterExpiry(t.recs[x], now) else t.recs[x])
            && (forall x :: x in r.order <==> x in t.order && (x in fired ==> t.recs[x].recurring))
            && (!Rollover(t.previous, now) ==>
                  forall x :: x in r.order ==>
                      r.recs[x].next > now
                      || (x in fired && r.recs[x].next == now && r.recs[x].ms == 0))
  {
    FiredExactly(t, now);
    ExpireResult(t, now);
  }

  /** The same in full: which timers are handed out, by deadline and reading, and what becomes of
      each record. */
  lemma {:induction false} ExpireSets(t: Timers, now: nat, x: Id)
    requires Good(t) && x in t.recs
    ensures var (r, fired) := Expire(t, now);
      && x in r.recs
      && (x in fired <==>
            x in t.order
            && (t.recs[x].next <= now
                || (now < t.previous && (t.previous < 3_600_000 || now < t.previous - 3_600_000))))
      && (x !in fired ==> r.recs[x] == t.recs[x] && (x in r.order <==> x in t.order))
      && (x in fired && t.recs[x].recurring ==>
            x in r.order && r.recs[x] == Rec(now + t.recs[x].ms, t.recs[x].ms, true, t.recs[x].cb))
      && (x in fired && !t.recs[x].recurring ==>
            x !in r.order && r.recs[x] == Rec(t.recs[x].next, t.recs[x].ms, false, None))
      && r.previous == (if t.order == [] then t.previous else now) && r.tickled == t.tickled
  {
    ExpireExactly(t, now);
    ExpireResult(t, now);
  }

  // -------------------------------------------------------------- what is promised

  /** The answer of `getNextTimer`: none if nothing is armed, zero if some timer is due, and
      otherwise the time to the earliest deadline. */
  lemma {:induction false} NextExactly(t: Timers, now: nat)
    requires Good(t)
    ensures var (t', timeout) := Next(t, now);
      && t' == t.(tickled := false)
      && (timeout == None <==> t.order == [])
      && (timeout == Some(0) <==> exists x :: x in t.order && t.recs[x].next <= now)
      && (forall n: nat :: n > 0 ==>
            (timeout == Some(n) <==>
             && (forall x :: x in t.order ==> t.recs[x].next >= now + n)
             && exists x :: x in t.order && t.recs[x].next == now + n))
  {
    if t.order != [] {
      var first := t.order[0];
      assert first in t.order;
      forall x | x in t.order
        ensures t.recs[first].next <= t.recs[x].next
      {
        var i :| 0 <= i < |t.order| && t.order[i] == x;
        assert i > 0 ==> Before(t.recs, t.order[0], t.order[i]);
      }
    }
  }

  /** The sleeper is woken exactly if nobody has woken it yet and the timer is the first one now. */
  lemma {:induction false} ArmingWakes(t: Timers, x: Id)
    requires Known(t.recs, t.order) && x in t.recs && x !in t.order
    ensures var (t', woke) := Armed(t, x);
      && t'.order != [] && (woke <==> !t.tickled && t'.order[0] == x)
      && (t'.tickled <==> t.tickled || woke) && t'.previous == t.previous
  {
  }

  /** A new timer is armed and due one period after the reading. */
  lemma {:induction false} AddSets(t: Timers, x: Id, ms: nat, cb: Option<Callback>, recurring: bool, now: nat)
    requires Good(t) && x !in t.recs
    ensures var t' := Add(t, x, ms, cb, recurring, now).0;
      && x in t'.order && t'.recs.Keys == t.recs.Keys + {x} && t'.recs[x] == Rec(now + ms, ms, recurring, cb)
      && forall y :: y in t.recs ==> t'.recs[y] == t.recs[y] && (y in t'.order <==> y in t.order)
  {
    AddIsGood(t, x, ms, cb, recurring, now);
  }

  lemma {:induction false} AddWakes(t: Timers, x: Id, ms: nat, cb: Option<Callback>, recurring: bool, now: nat)
    requires Good(t) && x !in t.recs
    ensures var (t', woke) := Add(t, x, ms, cb, recurring, now);
      t'.order != [] && (woke <==> !t.tickled && t'.order[0] == x) && (t'.tickled <==> t.tickled || woke)
  {
    ArmingWakes(t.(recs := t.recs[x := Rec(now + ms, ms, recurring, cb)]), x);
  }

  /** `refresh` succeeds exactly on a timer with a callback, which is then due one period from now
      and still armed; nothing else changes. */
  lemma {:induction false} RefreshSets(t: Timers, x: Id, now: nat)
    requires Good(t) && x in t.recs
    ensures var (t', ok) := Refresh(t, x, now);
      && (ok <==> t.recs[x].cb.Some?)
      && (ok ==> x in t'.order && t'.recs == t.recs[x := t.recs[x].(next := now + t.recs[x].ms)])
      && (!ok ==> t' == t)
      && t'.tickled == t.tickled && forall y :: y in t'.order <==> y in t.order
  {
    RefreshIsGood(t, x, now);
  }

  /** `cancel` succeeds exactly on a timer with a callback, which loses it and is armed no more. */
  lemma {:induction false} CancelSets(t: Timers, x: Id)
    requires Good(t) && x in t.recs
    ensures var (t', ok) := Cancel(t, x);
      && (ok <==> t.recs[x].cb.Some?)
      && (ok ==> x !in t'.order && t'.recs == t.recs[x := t.recs[x].(cb := None)])
      && (!ok ==> t' == t)
      && forall y :: y != x ==> (y in t'.order <==> y in t.order)
  {
    CancelIsGood(t, x);
  }

  lemma {:induction false} ResetMovesTo(t: Timers, x: Id, ms: nat, fromNow: bool, now: nat)
    requires Good(t) && x in t.recs && t.recs[x].cb.Some? && (ms != t.recs[x].ms || fromNow)
    ensures var r, rec := Reset(t, x, ms, fromNow, now), t.recs[x];
      && r.ok && x in r.timers.order
      && r.timers.recs == t.recs[x := Rec((if fromNow then now else rec.next - rec.ms) + ms, ms, rec.recurring, rec.cb)]
  {
    ResetMoves(t, x, ms, fromNow, now);
    ResetIsGood(t, x, ms, fromNow, now);
    assert x in t.order;
  }

  /** `reset` does nothing, and says yes, when the period stays and the start is not now; otherwise it
      succeeds exactly on a timer with a callback, which is then due one new period from now, or from
      where its period began. */
  lemma {:induction false} ResetSets(t: Timers, x: Id, ms: nat, fromNow: bool, now: nat)
    requires Good(t) && x in t.recs
    ensures var r, rec := Reset(t, x, ms, fromNow, now), t.recs[x];
      && (ms == rec.ms && !fromNow ==> r.ok && r.timers == t && !r.woke)
      && (ms != rec.ms || fromNow ==> (r.ok <==> rec.cb.Some?))
      && (!r.ok ==> r.timers == t && !r.woke)
      && (r.ok && (ms != rec.ms || fromNow) ==>
            && x in r.timers.order
            && r.timers.recs
               == t.recs[x := Rec((if fromNow then now else rec.next - rec.ms) + ms, ms, rec.recurring, rec.cb)])
  {
    if (ms != t.recs[x].ms || fromNow) && t.recs[x].cb.Some? {
      ResetMovesTo(t, x, ms, fromNow, now);
    }
  }

  lemma {:induction false} ResetWakes(t: Timers, x: Id, ms: nat, fromNow: bool, now: nat)
    requires Good(t) && x in t.recs && t.recs[x].cb.Some? && (ms != t.recs[x].ms || fromNow)
    ensures var r := Reset(t, x, ms, fromNow, now);
      && r.timers.order != [] && (r.woke <==> !t.tickled && r.timers.order[0] == x)
      && (r.timers.tickled <==> t.tickled || r.woke)
  {
    var recs := t.recs[x := ResetRec(t.recs[x], ms, fromNow, now)];
    ErasedIsSorted(t.recs, t.order, x);
    ArmingWakes(t.(recs := recs, order := Erased(t.order, x)), x);
  }

  // ----------------------------------------------------------------- whole runs

  datatype Op =
    | DoAdd(id: Id, ms: nat, cb: Option<Callback>, recurring: bool)
    | DoRefresh(id: Id) | DoCancel(id: Id) | DoReset(id: Id, ms: nat, fromNow: bool)
    | DoNext | DoExpire

  /** `now` is what the operation has read from the clock, and `at` what the clock says when its
      critical section runs.  `addTimer` and `listExpiredCb` read it before they get the lock. */
  datatype Event = Event(op: Op, now: nat, at: nat)

  /** One hand-out of a timer's callback: the reading, the time, and the deadline. */
  datatype Firing = Firing(id: Id, at: nat, time: nat, due: nat, rollover: bool)

  /** A manager together with what has been observed of it: when the last `getNextTimer` was asked,
      the moment up to which the sleeper sleeps by its answer (None if for good), whether the
      sleeper has been woken since, the time of the last critical section, and all firings. */
  datatype History = History(
    timers: Timers, asked: nat, until: Option<nat>, woken: bool, clock: nat, fired: seq<Firing>)

  function Start(now: nat): History {
    History(Timers(map[], [], false, now), now, None, false, now, [])
  }

  /** By the last answer the sleeper sleeps beyond the moment `c`. */
  predicate Oversleeps(h: History, c: nat) {
    h.until == None || (h.until.value > h.asked && h.until.value > c)
  }

  predicate Allowed(h: History, e: Event) {
    match e.op
    case DoAdd(x, _, _, _) => x !in h.timers.recs
    case DoRefresh(x) => x in h.timers.recs
    case DoCancel(x) => x in h.timers.recs
    case DoReset(x, _, _) => x in h.timers.recs && h.timers.recs[x].ms <= h.timers.recs[x].next
    case DoNext => true
    case DoExpire => true
  }

  function Firings(t: Timers, fired: seq<Id>, now: nat, at: nat): seq<Firing>
    requires Known(t.recs, fired)
  {
    seq(|fired|, i requires 0 <= i < |fired| =>
      Firing(fired[i], now, at, t.recs[fired[i]].next, Rollover(t.previous, now)))
  }

  function After(h: History, e: Event): History
    requires Known(h.timers.recs, h.timers.order) && Allowed(h, e)
  {
    var t := h.timers;
    match e.op
    case DoAdd(x, ms, cb, rec) =>
      var (t', woke) := Add(t, x, ms, cb, rec, e.now);
      h.(timers := t', woken := h.woken || woke, clock := e.at)
    case DoRefresh(x) => h.(timers := Refresh(t, x, e.now).0, clock := e.at)
    case DoCancel(x) => h.(timers := Cancel(t, x).0, clock := e.at)
    case DoReset(x, ms, fromNow) =>
      var r := Reset(t, x, ms, fromNow, e.now);
      h.(timers := r.timers, woken := h.woken || r.woke, clock := e.at)
    case DoNext =>
      var (t', timeout) := Next(t, e.now);
      h.(timers := t', woken := false, clock := e.at, asked := e.now,
      until := if timeout.None? then None else Some(e.now + timeout.value))
    case DoExpire =>
      var (t', fired) := Expire(t, e.now);
      assert Known(t.recs, fired);
      h.(timers := t', clock := e.at, fired := h.fired + Firings(t, fired, e.now, e.at))
  }

  /** `run[0]` is a fresh manager and `events[i]` leads from `run[i]` to `run[i + 1]`. */
  ghost predicate IsRun(run: seq<History>, events: seq<Event>) {
    && |run| == |events| + 1
    && (exists now :: run[0] == Start(now))
    && forall i :: 0 <= i < |events| ==>
         && Known(run[i].timers.recs, run[i].timers.order)
         && Allowed(run[i], events[i])
         && run[i + 1] == After(run[i], events[i])
  }

  lemma AfterIsGood(h: History, e: Event)
    requires Good(h.timers) && Allowed(h, e)
    ensures Good(After(h, e).timers)
  {
    match e.op
    case DoAdd(x, ms, cb, rec) => AddIsGood(h.timers, x, ms, cb, rec, e.now);
    case DoRefresh(x) => RefreshIsGood(h.timers, x, e.now);
    case DoCancel(x) => CancelIsGood(h.timers, x);
    case DoReset(x, ms, fromNow) => ResetIsGood(h.timers, x, ms, fromNow, e.now);
    case DoNext =>
    case DoExpire => ExpireExactly(h.timers, e.now);
  }

  lemma {:induction false} RunIsGood(run: seq<History>, events: seq<Event>, n: nat)
    requires IsRun(run, events) && n < |run|
    ensures Good(run[n].timers)
  {
    if n > 0 {
      RunIsGood(run, events, n - 1);
      AfterIsGood(run[n - 1], events[n - 1]);
    }
  }

  // ------------------------------------------------------------ no lost wakeups

  /** The clock never goes back.  A reading taken before the lock may be late by any amount; one
      taken under the lock is not. */
  predicate Truthful(h: History, e: Event) {
    h.clock <= e.at && e.now <= e.at && (e.op.DoAdd? || e.op.DoExpire? || e.now == e.at)
  }

  predicate AllTruthful(run: seq<History>, events: seq<Event>)
    requires |run| == |events| + 1
  {
    forall i :: 0 <= i < |events| ==> Truthful(run[i], events[i])
  }

  /** Unless the sleeper has been woken, it sleeps no longer than any timer allows. */
  predicate Heard(h: History)
    requires Known(h.timers.recs, h.timers.order)
  {
    && h.woken == h.timers.tickled
    && (!h.timers.tickled ==> forall x :: x in h.timers.order ==> !Oversleeps(h, h.timers.recs[x].next))
  }

  /** No armed timer is more than its period away. */
  predicate WithinPeriod(h: History)
    requires Known(h.timers.recs, h.timers.order)
  {
    forall x :: x in h.timers.order ==> h.timers.recs[x].next <= h.clock + h.timers.recs[x].ms
  }

  ghost predicate Timely(h: History, e: Event) {
    Good(h.timers) && Allowed(h, e) && WithinPeriod(h) && Truthful(h, e)
  }

  lemma {:induction false} ExpireWithinPeriod(h: History, e: Event)
    requires Timely(h, e) && e.op.DoExpire?
    ensures Good(After(h, e).timers) && WithinPeriod(After(h, e))
  {
    ExpireExactly(h.timers, e.now);
  }

  lemma {:induction false} ResetWithinPeriod(h: History, e: Event)
    requires Timely(h, e) && e.op.DoReset?
    ensures Good(After(h, e).timers) && WithinPeriod(After(h, e))
  {
    var t, x := h.timers, e.op.id;
    ResetIsGood(t, x, e.op.ms, e.op.fromNow, e.now);
    if !(e.op.ms == t.recs[x].ms && !e.op.fromNow) && t.recs[x].cb.Some? {
      ResetMoves(t, x, e.op.ms, e.op.fromNow, e.now);
    }
  }

  lemma {:induction false} AddWithinPeriod(h: History, e: Event)
    requires Timely(h, e) && e.op.DoAdd?
    ensures Good(After(h, e).timers) && WithinPeriod(After(h, e))
  {
    AddIsGood(h.timers, e.op.id, e.op.ms, e.op.cb, e.op.recurring, e.now);
  }

  lemma {:induction false} RefreshWithinPeriod(h: History, e: Event)
    requires Timely(h, e) && e.op.DoRefresh?
    ensures Good(After(h, e).timers) && WithinPeriod(After(h, e))
  {
    RefreshIsGood(h.timers, e.op.id, e.now);
  }

  lemma {:induction false} CancelWithinPeriod(h: History, e: Event)
    requires Timely(h, e) && e.op.DoCancel?
    ensures Good(After(h, e).timers) && WithinPeriod(After(h, e))
  {
    CancelIsGood(h.timers, e.op.id);
  }

  lemma {:induction false} NextWithinPeriod(h: History, e: Event)
    requires Timely(h, e) && e.op.DoNext?
    ensures Good(After(h, e).timers) && WithinPeriod(After(h, e))
  {
  }

  lemma {:induction false} AfterWithinPeriod(h: History, e: Event)
    requires Timely(h, e)
    ensures Good(After(h, e).timers) && WithinPeriod(After(h, e))
  {
    if e.op.DoAdd? {
      AddWithinPeriod(h, e);
    } else if e.op.DoRefresh? {
      RefreshWithinPeriod(h, e);
    } else if e.op.DoCancel? {
      CancelWithinPeriod(h, e);
    } else if e.op.DoReset? {
      ResetWithinPeriod(h, e);
    } else if e.op.DoNext? {
      NextWithinPeriod(h, e);
    } else {
      ExpireWithinPeriod(h, e);
    }
  }

  /** A timer put in behind the front is no earlier than the front. */
  lemma ArmedBehindFront(t: Timers, x: Id)
    requires Known(t.recs, t.order) && x in t.recs && Rank(t.recs, t.order, x) > 0
    ensures t.order != [] && t.recs[t.order[0]].next <= t.recs[x].next
  {
    assert Before(t.recs, t.order[0], x);
  }

  lemma AddHeard(h: History, e: Event)
    requires Good(h.timers) && Allowed(h, e) && Heard(h) && e.op.DoAdd?
    ensures Good(After(h, e).timers) && Heard(After(h, e))
  {
    var t, x := h.timers, e.op.id;
    AddIsGood(t, x, e.op.ms, e.op.cb, e.op.recurring, e.now);
    var t' := t.(recs := t.recs[x := Rec(e.now + e.op.ms, e.op.ms, e.op.recurring, e.op.cb)]);
    SortedElsewhere(t.recs, t'.recs, t.order);
    if Rank(t'.recs, t.order, x) > 0 {
      ArmedBehindFront(t', x);
    }
  }

  /** A refreshed timer only moves later, since its deadline was no more than its period away. */
  lemma RefreshHeard(h: History, e: Event)
    requires Timely(h, e) && Heard(h) && e.op.DoRefresh?
    ensures Good(After(h, e).timers) && Heard(After(h, e))
  {
    RefreshIsGood(h.timers, e.op.id, e.now);
  }

  /** A timer armed again after its period changed: either the sleeper is woken, or the
      timer comes behind one that was already armed. */
  lemma RearmedIsHeard(h: History, t: Timers, x: Id, rec: Rec)
    requires Good(t) && x in t.order && rec.ms <= rec.next
    requires forall y :: y in t.order ==> !Oversleeps(h, t.recs[y].next)
    ensures Known(t.recs, Erased(t.order, x))
    ensures var recs := t.recs[x := rec];
      && Known(recs, Erased(t.order, x))
      && (Rank(recs, Erased(t.order, x), x) > 0 ==> !Oversleeps(h, rec.next))
  {
    MovedIsGood(t, x, rec);
    ErasedIsSorted(t.recs, t.order, x);
    var t' := t.(recs := t.recs[x := rec], order := Erased(t.order, x));
    if Rank(t'.recs, t'.order, x) > 0 {
      ArmedBehindFront(t', x);
      assert t'.order[0] in t.order && t'.order[0] != x;
    }
  }

  lemma ResetHeard(h: History, e: Event)
    requires Good(h.timers) && Allowed(h, e) && Heard(h) && e.op.DoReset?
    ensures Good(After(h, e).timers) && Heard(After(h, e))
  {
    var t, x := h.timers, e.op.id;
    ResetIsGood(t, x, e.op.ms, e.op.fromNow, e.now);
    if !(e.op.ms == t.recs[x].ms && !e.op.fromNow) && t.recs[x].cb.Some? {
      ResetMoves(t, x, e.op.ms, e.op.fromNow, e.now);
      if !t.tickled {
        RearmedIsHeard(h, t, x, ResetRec(t.recs[x], e.op.ms, e.op.fromNow, e.now));
      }
    }
  }

  lemma CancelHeard(h: History, e: Event)
    requires Good(h.timers) && Allowed(h, e) && Heard(h) && e.op.DoCancel?
    ensures Good(After(h, e).timers) && Heard(After(h, e))
  {
    CancelIsGood(h.timers, e.op.id);
  }

  lemma NextHeard(h: History, e: Event)
    requires Good(h.timers) && Allowed(h, e) && e.op.DoNext?
    ensures Good(After(h, e).timers) && Heard(After(h, e))
  {
    var t := h.timers;
    forall x | x in t.order
      ensures t.recs[t.order[0]].next <= t.recs[x].next
    {
      var i :| 0 <= i < |t.order| && t.order[i] == x;
      assert i > 0 ==> Before(t.recs, t.order[0], t.order[i]);
    }
  }

  /** The condition on an expiry: the flag is up, or no recurring timer that is taken out comes back
      with a deadline that the sleeper sleeps beyond. */
  predicate ExpiryFits(h: History, now: nat)
    requires Known(h.timers.recs, h.timers.order)
  {
    h.timers.tickled
    || forall x :: x in h.timers.order && h.timers.recs[x].recurring && Due(h.timers, x, now) ==>
         !Oversleeps(h, now + h.timers.recs[x].ms)
  }

  /** An expiry loses no wakeup if and only if it fits. */
  lemma ExpireHeardIff(h: History, e: Event)
    requires Good(h.timers) && Allowed(h, e) && Heard(h) && e.op.DoExpire?
    ensures Good(After(h, e).timers)
    ensures Heard(After(h, e)) <==> ExpiryFits(h, e.now)
  {
    var t := h.timers;
    ExpireExactly(t, e.now);
    ExpireResult(t, e.now);
    var (r, fired) := Expire(t, e.now);
    forall x | x in t.order && t.recs[x].recurring && Due(t, x, e.now)
      ensures x in r.order && r.recs[x].next == e.now + t.recs[x].ms
    {
      assert x in fired;
    }
  }

  /** Without a rollover it always fits, however late the reading is. */
  lemma NoRolloverFits(h: History, now: nat)
    requires Good(h.timers) && Heard(h) && !Rollover(h.timers.previous, now)
    ensures ExpiryFits(h, now)
  {
    forall x | x in h.timers.order && !h.timers.tickled && Due(h.timers, x, now)
      ensures !Oversleeps(h, now + h.timers.recs[x].ms)
    {
      assert !Oversleeps(h, h.timers.recs[x].next) && h.timers.recs[x].next <= now;
    }
  }

  predicate Fits(h: History, e: Event)
    requires Known(h.timers.recs, h.timers.order)
  {
    e.op.DoExpire? ==> ExpiryFits(h, e.now)
  }

  lemma AfterHeardIff(h: History, e: Event)
    requires Timely(h, e) && Heard(h)
    ensures Good(After(h, e).timers)
    ensures Heard(After(h, e)) <==> Fits(h, e)
  {
    match e.op {
      case DoAdd(x, ms, cb, rec) => AddHeard(h, e);
      case DoRefresh(x) => RefreshHeard(h, e);
      case DoCancel(x) => CancelHeard(h, e);
      case DoReset(x, ms, fromNow) => ResetHeard(h, e);
      case DoNext => NextHeard(h, e);
      case DoExpire => ExpireHeardIff(h, e);
    }
  }

  lemma {:induction false} RunWithinPeriod(run: seq<History>, events: seq<Event>, n: nat)
    requires IsRun(run, events) && AllTruthful(run, events) && n < |run|
    ensures Good(run[n].timers) && WithinPeriod(run[n])
  {
    if n > 0 {
      RunWithinPeriod(run, events, n - 1);
      AfterWithinPeriod(run[n - 1], events[n - 1]);
    }
  }

  lemma {:induction false} RunIsHeard(run: seq<History>, events: seq<Event>, n: nat)
    requires IsRun(run, events) && AllTruthful(run, events) && n < |run|
    requires forall i :: 0 <= i < n ==> Known(run[i].timers.recs, run[i].timers.order) && Fits(run[i], events[i])
    ensures Good(run[n].timers) && Heard(run[n])
  {
    RunWithinPeriod(run, events, n);
    if n > 0 {
      RunIsHeard(run, events, n - 1);
      RunWithinPeriod(run, events, n - 1);
      AfterHeardIff(run[n - 1], events[n - 1]);
    }
  }

  /** Lost wakeups, with a clock that never goes back and readings that may be late: at every
      point of a run either the sleeper has been woken since its last `getNextTimer`, or by the answer
      of that call it does not sleep at all, or not beyond the deadline of any armed timer, if and
      only if every expiry of the run fits. */
  lemma {:induction false} NoLostWakeupIff(run: seq<History>, events: seq<Event>)
    requires IsRun(run, events) && AllTruthful(run, events)
    ensures forall n :: 0 <= n < |run| ==> Known(run[n].timers.recs, run[n].timers.order)
    ensures (forall n :: 0 <= n < |run| ==> Heard(run[n])) <==>
            (forall i :: 0 <= i < |events| ==> Fits(run[i], events[i]))
  {
    forall n | 0 <= n < |run|
      ensures Good(run[n].timers) && WithinPeriod(run[n])
    {
      RunWithinPeriod(run, events, n);
    }
    if forall i :: 0 <= i < |events| ==> Fits(run[i], events[i]) {
      forall n | 0 <= n < |run|
        ensures Heard(run[n])
      {
        RunIsHeard(run, events, n);
      }
    }
    if forall n :: 0 <= n < |run| ==> Heard(run[n]) {
      forall i | 0 <= i < |events|
        ensures Fits(run[i], events[i])
      {
        AfterHeardIff(run[i], events[i]);
        assert Heard(run[i + 1]);
      }
    }
  }

  /** No expiry before `n` takes its reading for a rollover. */
  predicate NoRollover(run: seq<History>, events: seq<Event>, n: nat)
    requires n <= |events| < |run|
  {
    forall i :: 0 <= i < n && events[i].op.DoExpire? ==> !Rollover(run[i].timers.previous, events[i].now)
  }

  /** No lost wakeup: as long as no reading is taken for a rollover, either the sleeper has been
      woken, or it does not sleep at all, or not beyond the deadline of any armed timer. */
  lemma {:induction false} NoLostWakeup(run: seq<History>, events: seq<Event>, n: nat)
    requires IsRun(run, events) && AllTruthful(run, events) && n < |run| && NoRollover(run, events, n)
    ensures var h := run[n];
      && Known(h.timers.recs, h.timers.order)
      && (h.woken <==> h.timers.tickled)
      && (!h.timers.tickled ==>
            forall x :: x in h.timers.order ==>
              h.until.Some? && (h.until.value <= h.asked || h.until.value <= h.timers.recs[x].next))
  {
    RunWithinPeriod(run, events, n);
    if n > 0 {
      NoLostWakeup(run, events, n - 1);
      RunWithinPeriod(run, events, n - 1);
      if events[n - 1].op.DoExpire? {
        NoRolloverFits(run[n - 1], events[n - 1].now);
      }
      AfterHeardIff(run[n - 1], events[n - 1]);
    }
  }

  /** Once the last reading is an hour from the epoch, one up to an hour late is no rollover. */
  lemma HourOfGrace(previous: nat, now: nat)
    requires previous >= HOUR
    ensures Rollover(previous, now) <==> now + HOUR < previous
  {
  }

  /** Readings that come in the order of the locks: none is taken for a rollover. */
  predicate InOrder(run: seq<History>, events: seq<Event>)
    requires |run| == |events| + 1
  {
    forall i :: 0 <= i < |events| ==> run[i].clock <= events[i].now == events[i].at
  }

  lemma {:induction false} InOrderNoRollover(run: seq<History>, events: seq<Event>, n: nat)
    requires IsRun(run, events) && InOrder(run, events) && n < |run|
    ensures run[n].timers.previous <= run[n].clock && NoRollover(run, events, n)
  {
    if n > 0 {
      InOrderNoRollover(run, events, n - 1);
      RunIsGood(run, events, n - 1);
      if events[n - 1].op.DoExpire? {
        ExpireResult(run[n - 1].timers, events[n - 1].now);
      }
    }
  }

  // --------------------------------------------------------- firing and cancelling

  /** The timer has lost its callback and left the set. */
  predicate Retired(t: Timers, x: Id) {
    x in t.recs && t.recs[x].cb == None && x !in t.order
  }

  lemma RetiredStays(h: History, e: Event, x: Id)
    requires Good(h.timers) && Allowed(h, e) && Retired(h.timers, x)
    ensures Retired(After(h, e).timers, x)
    ensures e.op.DoExpire? ==> x !in Expire(h.timers, e.now).1
  {
    match e.op {
      case DoAdd(y, ms, cb, rec) => AddIsGood(h.timers, y, ms, cb, rec, e.now);
      case DoRefresh(y) => RefreshIsGood(h.timers, y, e.now);
      case DoCancel(y) => CancelIsGood(h.timers, y);
      case DoReset(y, ms, fromNow) => ResetIsGood(h.timers, y, ms, fromNow, e.now);
      case DoNext =>
      case DoExpire => ExpireExactly(h.timers, e.now);
    }
  }

  function TimesFired(fired: seq<Firing>, x: Id): nat {
    if fired == [] then 0 else (if fired[0].id == x then 1 else 0) + TimesFired(fired[1..], x)
  }

  lemma {:induction false} TimesFiredAppend(a: seq<Firing>, b: seq<Firing>, x: Id)
    ensures TimesFired(a + b, x) == TimesFired(a, x) + TimesFired(b, x)
  {
    if a == [] {
      assert a + b == b;
    } else {
      assert (a + b)[1..] == a[1..] + b;
      TimesFiredAppend(a[1..], b, x);
    }
  }

  lemma {:induction false} TimesFiredNever(fired: seq<Firing>, x: Id)
    requires forall i :: 0 <= i < |fired| ==> fired[i].id != x
    ensures TimesFired(fired, x) == 0
  {
    if fired != [] {
      TimesFiredNever(fired[1..], x);
    }
  }

  lemma {:induction false} TimesFiredOnce(fired: seq<Firing>, x: Id)
    requires forall i, j :: 0 <= i < j < |fired| ==> fired[i].id != fired[j].id
    ensures TimesFired(fired, x) <= 1
  {
    if fired != [] {
      if fired[0].id == x {
        TimesFiredNever(fired[1..], x);
      } else {
        TimesFiredOnce(fired[1..], x);
      }
    }
  }

  lemma {:induction false} RetiredFiresNot(h: History, e: Event, x: Id)
    requires Good(h.timers) && Allowed(h, e) && Retired(h.timers, x)
    ensures TimesFired(After(h, e).fired, x) == TimesFired(h.fired, x)
  {
    if e.op.DoExpire? {
      RetiredStays(h, e, x);
      var more := Firings(h.timers, Expire(h.timers, e.now).1, e.now, e.at);
      TimesFiredAppend(h.fired, more, x);
      TimesFiredNever(more, x);
    }
  }

  /** A retired timer never fires again, and no later refresh or cancel succeeds on it. */
  lemma {:induction false} RetiredForGood(run: seq<History>, events: seq<Event>, m: nat, n: nat, x: Id)
    requires IsRun(run, events) && m <= n < |run| && Retired(run[m].timers, x)
    ensures Retired(run[n].timers, x)
    ensures TimesFired(run[n].fired, x) == TimesFired(run[m].fired, x)
  {
    if m < n {
      RetiredForGood(run, events, m, n - 1, x);
      RunIsGood(run, events, n - 1);
      var h, e := run[n - 1], events[n - 1];
      RetiredStays(h, e, x);
      RetiredFiresNot(h, e, x);
    }
  }

  /** Once `cancel` has returned true the timer does not fire any more in any continuation
      of the run, and every later `cancel` and `refresh` of it returns false. */
  lemma CancelledForGood(run: seq<History>, events: seq<Event>, m: nat, n: nat, x: Id)
    requires IsRun(run, events) && m < n < |run|
    requires events[m].op == DoCancel(x) && Cancel(run[m].timers, x).1
    ensures TimesFired(run[n].fired, x) == TimesFired(run[m].fired, x)
    ensures Known(run[n].timers.recs, run[n].timers.order) && x in run[n].timers.recs
    ensures !Cancel(run[n].timers, x).1
    ensures forall now :: !Refresh(run[n].timers, x, now).1
  {
    RunIsGood(run, events, m);
    RunIsGood(run, events, n);
    CancelIsGood(run[m].timers, x);
    RetiredForGood(run, events, m + 1, n, x);
  }

  /** A one-shot timer has fired at most once, and has retired if it has. */
  predicate OneShotsOnce(h: History) {
    forall x :: x in h.timers.recs && !h.timers.recs[x].recurring ==>
      TimesFired(h.fired, x) == 0 || (TimesFired(h.fired, x) == 1 && Retired(h.timers, x))
  }

  predicate OnlyKnownFired(h: History) {
    forall i :: 0 <= i < |h.fired| ==> h.fired[i].id in h.timers.recs
  }

  predicate NeverEarly(h: History) {
    forall i :: 0 <= i < |h.fired| ==> h.fired[i].due <= h.fired[i].at || h.fired[i].rollover
  }

  lemma FiringsDistinct(t: Timers, fired: seq<Id>, now: nat, at: nat, x: Id)
    requires Known(t.recs, fired) && Distinct(fired)
    ensures TimesFired(Firings(t, fired, now, at), x) <= 1
    ensures x !in fired ==> TimesFired(Firings(t, fired, now, at), x) == 0
  {
    TimesFiredOnce(Firings(t, fired, now, at), x);
    if x !in fired {
      TimesFiredNever(Firings(t, fired, now, at), x);
    }
  }

  /** A one-shot timer handed out now was armed, so it had not fired before. */
  lemma ExpireCount(h: History, e: Event, x: Id)
    requires Good(h.timers) && Allowed(h, e) && e.op.DoExpire? && OneShotsOnce(h)
    requires x in h.timers.recs && !h.timers.recs[x].recurring
    ensures var h' := After(h, e);
            TimesFired(h'.fired, x) == 0 || (TimesFired(h'.fired, x) == 1 && Retired(h'.timers, x))
  {
    var t := h.timers;
    var fired := Expire(t, e.now).1;
    ExpireExactly(t, e.now);
    FiringsDistinct(t, fired, e.now, e.at, x);
    TimesFiredAppend(h.fired, Firings(t, fired, e.now, e.at), x);
    assert x in fired ==> !Retired(t, x);
  }

  lemma ExpireCounts(h: History, e: Event)
    requires Good(h.timers) && Allowed(h, e) && e.op.DoExpire? && OneShotsOnce(h)
    ensures OneShotsOnce(After(h, e))
  {
    ExpireExactly(h.timers, e.now);
    forall x | x in h.timers.recs && !h.timers.recs[x].recurring
      ensures TimesFired(After(h, e).fired, x) == 0
              || (TimesFired(After(h, e).fired, x) == 1 && Retired(After(h, e).timers, x))
    {
      ExpireCount(h, e, x);
    }
  }

  lemma ExpireTimes(h: History, e: Event)
    requires Good(h.timers) && Allowed(h, e) && e.op.DoExpire?
    requires OnlyKnownFired(h) && NeverEarly(h)
    ensures OnlyKnownFired(After(h, e)) && NeverEarly(After(h, e))
  {
    var t, h' := h.timers, After(h, e);
    var fired := Expire(t, e.now).1;
    ExpireExactly(t, e.now);
    FiredExactly(t, e.now);
    forall i | |h.fired| <= i < |h'.fired|
      ensures h'.fired[i].id in t.recs && (h'.fired[i].due <= h'.fired[i].at || h'.fired[i].rollover)
    {
      var j := i - |h.fired|;
      assert h'.fired[i] == Firings(t, fired, e.now, e.at)[j];
      assert fired[j] in fired;
    }
  }

  lemma OtherFiring(h: History, e: Event)
    requires Good(h.timers) && Allowed(h, e) && !e.op.DoExpire?
    requires OneShotsOnce(h) && OnlyKnownFired(h) && NeverEarly(h)
    ensures OneShotsOnce(After(h, e)) && OnlyKnownFired(After(h, e)) && NeverEarly(After(h, e))
  {
    var h' := After(h, e);
    assert h'.fired == h.fired;
    forall x | x in h'.timers.recs && !h'.timers.recs[x].recurring
      ensures TimesFired(h'.fired, x) == 0 || (TimesFired(h'.fired, x) == 1 && Retired(h'.timers, x))
    {
      if x in h.timers.recs {
        if Retired(h.timers, x) {
          RetiredStays(h, e, x);
        }
      } else {
        TimesFiredNever(h.fired, x);
      }
    }
  }

  lemma {:induction false} RunFiring(run: seq<History>, events: seq<Event>, n: nat)
    requires IsRun(run, events) && n < |run|
    ensures OneShotsOnce(run[n]) && OnlyKnownFired(run[n]) && NeverEarly(run[n])
  {
    if n > 0 {
      RunFiring(run, events, n - 1);
      RunIsGood(run, events, n - 1);
      if events[n - 1].op.DoExpire? {
        ExpireCounts(run[n - 1], events[n - 1]);
        ExpireTimes(run[n - 1], events[n - 1]);
      } else {
        OtherFiring(run[n - 1], events[n - 1]);
      }
    }
  }

  /** Over every run, whatever the clock does: a one-shot timer fires at most once, and no
      timer fires before its deadline unless a clock rollover was detected. */
  lemma FiringIsRight(run: seq<History>, events: seq<Event>, n: nat)
    requires IsRun(run, events) && n < |run|
    ensures forall x :: x in run[n].timers.recs && !run[n].timers.recs[x].recurring ==> TimesFired(run[n].fired, x) <= 1
    ensures forall i :: 0 <= i < |run[n].fired| ==>
            run[n].fired[i].due <= run[n].fired[i].at
            || run[n].fired[i].rollover
  {
    RunFiring(run, events, n);
  }
}
