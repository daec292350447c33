/** Timer objects and their manager (src/Timer.cpp, src/Timer.h).  Deadlines are fields of
    shared timer objects, so the set stays ordered only because no field of a member is
    changed while it is in the set. */
module TimerObjects {
  import opened Wrappers
  import opened TimerModel
  import opened TimerRuns

  /** A member taken out of the set and given another deadline and period. */
  function Retimed(t: Timers, x: Id, rec: Rec): Timers {
    t.(recs := t.recs[x := rec], order := Erased(t.order, x))
  }

  lemma RetimedIsReady(t: Timers, x: Id, rec: Rec, taken: Timers)
    requires Good(t) && x in t.order && rec.ms <= rec.next && taken == Retimed(t, x, rec)
    ensures Known(taken.recs, taken.order) && x in taken.recs
  {
    MovedIsGood(t, x, rec);
  }

  lemma RefreshSteps(t: Timers, x: Id, now: nat, rec: Rec, taken: Timers, t': Timers)
    requires Good(t) && x in t.order && t.recs[x].cb.Some? && rec == t.recs[x].(next := now + t.recs[x].ms)
    requires taken == Retimed(t, x, rec) && Known(taken.recs, taken.order)
    requires t' == taken.(order := Inserted(taken.recs, taken.order, x))
    ensures Good(t') && (t', true) == TimerModel.Refresh(t, x, now)
  {
    assert TimerModel.Refresh(t, x, now) == (t', true);
    RefreshIsGood(t, x, now);
  }

  lemma ResetSteps(t: Timers, x: Id, ms: nat, fromNow: bool, now: nat, taken: Timers, t': Timers, woke: bool)
    requires Good(t) && x in t.order && t.recs[x].cb.Some? && !(ms == t.recs[x].ms && !fromNow)
    requires taken == Retimed(t, x, ResetRec(t.recs[x], ms, fromNow, now))
    requires Known(taken.recs, taken.order) && (t', woke) == Armed(taken, x)
    ensures Good(t') && ResetResult(t', true, woke) == TimerModel.Reset(t, x, ms, fromNow, now)
  {
    ResetIsGood(t, x, ms, fromNow, now);
  }

  lemma ExpireStaysGood(t: Timers, now: nat)
    requires Good(t)
    ensures Good(Expire(t, now).0)
    ensures Expire(t, now).0.previous == if t.order == [] then t.previous else now
  {
    ExpireExactly(t, now);
    ExpireResult(t, now);
  }

  lemma RequeuedNext(t: Timers, ids: seq<Id>, i: nat, now: nat)
    requires Known(t.recs, t.order) && i < |ids| && Known(t.recs, ids) && Distinct(ids)
    ensures Known(t.recs, ids[i..])
    ensures var r := RequeuedOne(t, ids[i], now);
            && Known(r.recs, ids[i + 1..])
            && Requeued(t, ids[i..], now) == Requeued(r, ids[i + 1..], now)
            && forall j :: i < j < |ids| ==> r.recs[ids[j]] == t.recs[ids[j]]
  {
    assert ids[i..][0] == ids[i] && ids[i..][1..] == ids[i + 1..];
  }

  const TWO_64 := 0x1_0000_0000_0000_0000

  /** The difference is unsigned: within an hour from the epoch it wraps around to a number that
      is greater than any reading before `previous`. */
  lemma {:induction false} UnsignedRollover(previous: nat, now: nat)
    requires previous < TWO_64
    ensures now < previous && now < (previous + TWO_64 - HOUR) % TWO_64 <==> Rollover(previous, now)
  {
    if previous >= HOUR {
      assert previous + TWO_64 - HOUR == (previous - HOUR) + TWO_64;
    }
  }

  class Timer {
    const id: Id
    const manager: TimerManager
    var recurring: bool
    var ms: nat
    var next: nat
    var callback: Option<Callback>

    constructor (id: Id, manager: TimerManager, ms: nat, cb: Option<Callback>, recurring: bool, now: nat)
      ensures this.id == id && this.manager == manager && AsRec() == Rec(now + ms, ms, recurring, cb)
    {
      this.id, this.manager := id, manager;
      this.recurring, this.ms, this.callback := recurring, ms, cb;
      this.next := now + ms;
    }

    function AsRec(): Rec
      reads this
    {
      Rec(next, ms, recurring, callback)
    }

    /** The comparator, against a deadline and an identity. */
    predicate Less(next': nat, id': Id)
      reads this
    {
      next < next' || (next == next' && id < id')
    }

    method Refresh(now: nat) returns (ok: bool)
      requires manager.Valid() && this in manager.all
      modifies this, manager
      ensures manager.Valid() && manager.all == old(manager.all)
      ensures (manager.model, ok) == TimerModel.Refresh(old(manager.model), id, now)
    {
      if callback == None {
        return false;
      }
      var m := manager;
      var i := m.Find(this);
      if i == |m.timers| {
        return false;
      }
      ghost var t := m.model;
      ghost var rec := AsRec().(next := now + ms, ms := ms);
      m.Retime(i, this, now + ms, ms);
      ghost var taken := m.model;
      RetimedIsReady(t, id, rec, taken);
      var _ := m.Insert(this);
      RefreshSteps(t, id, now, rec, taken, m.model);
      ok := true;
    }

    method Cancel() returns (ok: bool)
      requires manager.Valid() && this in manager.all
      modifies this, manager
      ensures manager.Valid() && manager.all == old(manager.all)
      ensures (manager.model, ok) == TimerModel.Cancel(old(manager.model), id)
    {
      if callback == None {
        return false;
      }
      var m := manager;
      CancelIsGood(m.model, id);
      var i := m.Find(this);
      m.Erase(i, this);
      callback := None;
      m.Rerecord(this);
      ok := true;
    }

    /** `woke` reports that the sleeper has been woken. */
    method Reset(period: nat, fromNow: bool, now: nat) returns (ok: bool, woke: bool)
      requires manager.Valid() && this in manager.all
      modifies this, manager
      ensures manager.Valid() && manager.all == old(manager.all)
      ensures ResetResult(manager.model, ok, woke) == TimerModel.Reset(old(manager.model), id, period, fromNow, now)
    {
      if period == ms && !fromNow {
        return true, false;
      }
      if callback == None {
        return false, false;
      }
      var m := manager;
      var i := m.Find(this);
      if i == |m.timers| {
        return false, false;
      }
      ghost var t := m.model;
      var start := if fromNow then now else next - ms;
      m.Retime(i, this, start + period, period);
      ghost var taken := m.model;
      RetimedIsReady(t, id, ResetRec(t.recs[id], period, fromNow, now), taken);
      woke := m.Arm(this);
      ResetSteps(t, id, period, fromNow, now, taken, m.model, woke);
      ok := true;
    }
  }

  class TimerManager {
    var timers: seq<Timer>
    var tickled: bool
    var previousTime: nat

    ghost var all: set<Timer>   // every timer made by this manager
    ghost var model: Timers

    /** The objects agree with the model: each timer with its record, the set with its order. */
    ghost predicate Linked()
      reads this, all
    {
      && (forall t <- all :: t.manager == this && t.id in model.recs && model.recs[t.id] == t.AsRec())
      && (forall t, u :: t in all && u in all && t.id == u.id ==> t == u)
      && |timers| == |model.order|
      && (forall i :: 0 <= i < |timers| ==> timers[i] in all && timers[i].id == model.order[i])
      && tickled == model.tickled && previousTime == model.previous
    }

    ghost predicate Valid()
      reads this, all
    {
      Linked() && Good(model) && previousTime < TWO_64
    }

    constructor (now: nat)
      requires now < TWO_64
      ensures Valid() && all == {} && model == Start(now).timers
    {
      timers, tickled, previousTime := [], false, now;
      all, model := {}, Timers(map[], [], false, now);
    }

    /** `set::find`: the member equivalent to `t` under the comparator, or the end. */
    method Find(t: Timer) returns (i: nat)
      requires Valid() && t in all
      ensures i == IndexOf(model.order, t.id)
      ensures i < |timers| ==> timers[i] == t
      ensures t.callback.Some? ==> i < |timers|
    {
      i := 0;
      while i < |timers| && (timers[i].Less(t.next, t.id) || t.Less(timers[i].next, timers[i].id))
        invariant i <= |timers|
        invariant forall j :: 0 <= j < i ==> model.order[j] != t.id
      {
        i := i + 1;
      }
    }

    /** `set::erase` at a position. */
    method Erase(i: nat, t: Timer)
      requires Linked() && i < |timers| && timers[i] == t && i == IndexOf(model.order, t.id)
      modifies this
      ensures Linked() && all == old(all)
      ensures model == old(model).(order := Erased(old(model).order, t.id))
    {
      timers := timers[..i] + timers[i + 1..];
      model := model.(order := model.order[..i] + model.order[i + 1..]);
    }

    /** Bring the model up to date after the fields of a timer outside the set changed. */
    ghost method Rerecord(t: Timer)
      requires t in all
      requires forall u <- all :: u.manager == this && u.id in model.recs && (u != t ==> model.recs[u.id] == u.AsRec())
      requires forall u, v :: u in all && v in all && u.id == v.id ==> u == v
      requires |timers| == |model.order|
      requires forall i :: 0 <= i < |timers| ==> timers[i] in all && timers[i].id == model.order[i]
      requires tickled == model.tickled && previousTime == model.previous
      modifies `model
      ensures Linked() && model == old(model).(recs := old(model).recs[t.id := t.AsRec()])
    {
      model := model.(recs := model.recs[t.id := t.AsRec()]);
    }

    /** Take a member out of the set and give it another deadline and period. */
    method Retime(i: nat, t: Timer, next: nat, ms: nat)
      requires Valid() && t in all && i < |timers| && timers[i] == t && i == IndexOf(model.order, t.id)
      modifies this, t
      ensures Linked() && all == old(all)
      ensures model == Retimed(old(model), t.id, old(t.AsRec()).(next := next, ms := ms))
    {
      Erase(i, t);
      t.next, t.ms := next, ms;
      Rerecord(t);
    }

    /** `set::insert`; tells whether the timer is now at the front. */
    method Insert(t: Timer) returns (atBegin: bool)
      requires Linked() && Known(model.recs, model.order) && t in all
      modifies this
      ensures Linked() && all == old(all)
      ensures model == old(model).(order := Inserted(old(model).recs, old(model).order, t.id))
      ensures atBegin == (Rank(old(model).recs, old(model).order, t.id) == 0)
    {
      var i := 0;
      while i < |timers| && timers[i].Less(t.next, t.id)
        invariant 0 <= i <= Rank(model.recs, model.order, t.id)
      {
        i := i + 1;
      }
      assert i == Rank(model.recs, model.order, t.id);
      timers := timers[..i] + [t] + timers[i..];
      model := model.(order := model.order[..i] + [t.id] + model.order[i..]);
      forall j | 0 <= j < |timers|
        ensures timers[j] in all && timers[j].id == model.order[j]
      {
        assert timers[j] == if j < i then old(timers)[j] else if j == i then t else old(timers)[j - 1];
      }
      atBegin := i == 0;
    }

    /** `addTimer(timer, lock)` */
    method Arm(t: Timer) returns (woke: bool)
      requires Linked() && Known(model.recs, model.order) && t in all
      modifies this
      ensures Linked() && all == old(all)
      ensures (model, woke) == Armed(old(model), t.id)
    {
      var atBegin := Insert(t);
      woke := atBegin && !tickled;
      if woke {
        tickled := true;
        model := model.(tickled := true);
      }
    }

    /** `id` is the address of the new object, so it is not that of another timer. */
    method AddTimer(id: Id, ms: nat, cb: Option<Callback>, recurring: bool, now: nat) returns (t: Timer, woke: bool)
      requires Valid() && id !in model.recs
      modifies this
      ensures Valid() && all == old(all) + {t} && fresh(t) && t.id == id
      ensures (model, woke) == Add(old(model), id, ms, cb, recurring, now)
    {
      AddIsGood(model, id, ms, cb, recurring, now);
      t := new Timer(id, this, ms, cb, recurring, now);
      all := all + {t};
      model := model.(recs := model.recs[id := t.AsRec()]);
      woke := Arm(t);
    }

    /** None stands for the all-ones timeout. */
    method GetNextTimer(now: nat) returns (timeout: Option<nat>)
      requires Valid()
      modifies this
      ensures Valid() && all == old(all)
      ensures (model, timeout) == Next(old(model), now)
    {
      tickled := false;
      model := model.(tickled := false);
      if timers == [] {
        return None;
      }
      if now >= timers[0].next {
        return Some(0);
      } else {
        return Some(timers[0].next - now);
      }
    }

    method DetectClockRollover(now: nat) returns (rollover: bool)
      requires Linked() && previousTime < TWO_64
      modifies `previousTime, `model
      ensures Linked() && previousTime == now && model == old(model).(previous := now)
      ensures rollover <==>
              && now < old(previousTime)
              && (old(previousTime) < 3_600_000 || now < old(previousTime) - 3_600_000)
    {
      UnsignedRollover(previousTime, now);
      rollover := false;
      if now < previousTime && now < (previousTime + TWO_64 - HOUR) % TWO_64 {
        rollover := true;
      }
      previousTime := now;
      model := model.(previous := now);
    }

    /** How many members are due: `lower_bound` of a probe timer at `now`, then past the
        members with that very deadline.  The probe's identity does not matter. */
    method CountDue(now: nat, probe: Id) returns (n: nat)
      requires Valid()
      ensures n == DueCount(model.recs, model.order, now)
    {
      n := 0;
      while n < |timers| && timers[n].Less(now, probe)
        invariant n <= |timers| && forall i :: 0 <= i < n ==> model.recs[model.order[i]].next <= now
      {
        n := n + 1;
      }
      while n < |timers| && timers[n].next == now
        invariant n <= |timers| && forall i :: 0 <= i < n ==> model.recs[model.order[i]].next <= now
        invariant n < |timers| ==> timers[n].next >= now
      {
        n := n + 1;
        assert n < |timers| ==> Before(model.recs, model.order[n - 1], model.order[n]);
      }
    }

    method Repeat(t: Timer, now: nat)
      requires Linked() && Known(model.recs, model.order) && t in all && t.recurring
      modifies this, t
      ensures Linked() && all == old(all)
      ensures model == RequeuedOne(old(model), t.id, now)
    {
      t.next := now + t.ms;
      Rerecord(t);
      var _ := Insert(t);
    }

    /** Re-arm or retire a timer just taken out of the set. */
    method RequeueOne(t: Timer, now: nat)
      requires Linked() && Known(model.recs, model.order) && t in all
      modifies this, t
      ensures Linked() && all == old(all)
      ensures model == RequeuedOne(old(model), t.id, now)
    {
      if t.recurring {
        Repeat(t, now);
      } else {
        t.callback := None;
        Rerecord(t);
      }
    }

    /** Requeue the timers already taken out, one by one, collecting their callbacks. */
    method RequeueAll(expired: seq<Timer>, now: nat, ghost ids: seq<Id>) returns (cbs: seq<Option<Callback>>)
      requires Linked() && Known(model.recs, model.order)
      requires |ids| == |expired| && forall i :: 0 <= i < |expired| ==> expired[i] in all && expired[i].id == ids[i]
      requires Known(model.recs, ids) && Distinct(ids)
      modifies this, all
      ensures Linked() && all == old(all)
      ensures model == Requeued(old(model), ids, now)
      ensures |cbs| == |ids| && forall i :: 0 <= i < |ids| ==> cbs[i] == old(model).recs[ids[i]].cb
    {
      cbs := [];
      var i := 0;
      while i < |expired|
        invariant i <= |expired| && |cbs| == i
        invariant Linked() && all == old(all) && Known(model.recs, model.order)
        invariant model.recs.Keys == old(model).recs.Keys
        invariant forall j :: i <= j < |ids| ==> model.recs[ids[j]] == old(model).recs[ids[j]]
        invariant forall j :: 0 <= j < i ==> cbs[j] == old(model).recs[ids[j]].cb
        invariant Requeued(model, ids[i..], now) == Requeued(old(model), ids, now)
      {
        cbs := cbs + [expired[i].callback];
        RequeuedNext(model, ids, i, now);
        RequeueOne(expired[i], now);
        i := i + 1;
      }
    }

    /** Take the first timers out of the set. */
    method TakeFirst(n: nat) returns (expired: seq<Timer>)
      requires Valid() && n <= |timers|
      modifies `timers, `model
      ensures Linked() && all == old(all)
      ensures model == old(model).(order := old(model).order[n..]) && Known(model.recs, model.order)
      ensures |expired| == n && Distinct(old(model).order[..n]) && Known(model.recs, old(model).order[..n])
      ensures forall i :: 0 <= i < n ==> expired[i] in all && expired[i].id == old(model).order[..n][i]
    {
      SortedIsDistinct(model);
      expired := timers[..n];
      timers := timers[n..];
      model := model.(order := model.order[n..]);
    }

    /** The callbacks of the expired timers.  `probe` is the address of the temporary timer
        that the set is searched with. */
    method ListExpiredCb(now: nat, probe: Id) returns (cbs: seq<Option<Callback>>)
      requires Valid() && now < TWO_64
      modifies this, all
      ensures Valid() && all == old(all)
      ensures var (t, fired) := Expire(old(model), now);
              && model == t
              && |cbs| == |fired|
              && forall i :: 0 <= i < |fired| ==> cbs[i] == old(model).recs[fired[i]].cb
    {
      ExpireStaysGood(model, now);
      if timers == [] {
        return [];
      }
      var roll := DetectClockRollover(now);
      if !roll && timers[0].next > now {
        return [];
      }
      var n := |timers|;
      if !roll {
        n := CountDue(now, probe);
      }
      var expired := TakeFirst(n);
      cbs := RequeueAll(expired, now, old(model).order[..n]);
    }
  }
}
