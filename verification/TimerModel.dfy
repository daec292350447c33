/** The timer set as a value, one function per critical section (src/Timer.cpp). */
module TimerModel {
  import opened Wrappers

  type Id = nat        // the address of a timer object
  type Callback = nat

  datatype Rec = Rec(next: nat, ms: nat, recurring: bool, cb: Option<Callback>)

  /** `order` is the iteration order of the set of armed timers. */
  datatype Timers = Timers(recs: map<Id, Rec>, order: seq<Id>, tickled: bool, previous: nat)

  const HOUR := 60 * 60 * 1000

  /** The comparator: by deadline, then by identity. */
  predicate Before(recs: map<Id, Rec>, a: Id, b: Id)
    requires a in recs && b in recs
  {
    recs[a].next < recs[b].next || (recs[a].next == recs[b].next && a < b)
  }

  predicate Known(recs: map<Id, Rec>, order: seq<Id>) {
    forall i :: 0 <= i < |order| ==> order[i] in recs
  }

  predicate Sorted(recs: map<Id, Rec>, order: seq<Id>)
    requires Known(recs, order)
  {
    forall i, j :: 0 <= i < j < |order| ==> Before(recs, order[i], order[j])
  }

  /** The set is strictly sorted, and a timer that still has a callback is in it. */
  ghost predicate Good(t: Timers) {
    && Known(t.recs, t.order) && Sorted(t.recs, t.order)
    && (forall x :: x in t.recs && t.recs[x].cb.Some? ==> x in t.order)
    && (forall x :: x in t.recs ==> t.recs[x].ms <= t.recs[x].next)
  }

  /** How many of the armed timers come before `x`. */
  function Rank(recs: map<Id, Rec>, order: seq<Id>, x: Id): (r: nat)
    requires Known(recs, order) && x in recs
    ensures r <= |order|
    ensures forall i :: 0 <= i < r ==> Before(recs, order[i], x)
    ensures r < |order| ==> !Before(recs, order[r], x)
  {
    if order == [] || !Before(recs, order[0], x) then 0
    else
      assert order[0] in recs && forall i :: 0 <= i < |order[1..]| ==> order[1..][i] == order[i + 1];
      1 + Rank(recs, order[1..], x)
  }

  function Inserted(recs: map<Id, Rec>, order: seq<Id>, x: Id): seq<Id>
    requires Known(recs, order) && x in recs
  {
    var r := Rank(recs, order, x);
    order[..r] + [x] + order[r..]
  }

  function IndexOf(order: seq<Id>, x: Id): (i: nat)
    ensures i <= |order|
    ensures i < |order| ==> order[i] == x
    ensures forall j :: 0 <= j < i ==> order[j] != x
    ensures x in order <==> i < |order|
  {
    if order == [] || order[0] == x then 0 else 1 + IndexOf(order[1..], x)
  }

  function Erased(order: seq<Id>, x: Id): seq<Id> {
    var i := IndexOf(order, x);
    if i < |order| then order[..i] + order[i + 1..] else order
  }

  /** `addTimer(timer, lock)`: insert, and wake the sleeper if the timer came to the front
      and nobody has done so yet. */
  function Armed(t: Timers, x: Id): (Timers, bool)
    requires Known(t.recs, t.order) && x in t.recs
  {
    var atFront := Rank(t.recs, t.order, x) == 0 && !t.tickled;
    (t.(order := Inserted(t.recs, t.order, x), tickled := t.tickled || atFront), atFront)
  }

  function Add(t: Timers, x: Id, ms: nat, cb: Option<Callback>, recurring: bool, now: nat): (Timers, bool)
    requires Known(t.recs, t.order)
  {
    Armed(t.(recs := t.recs[x := Rec(now + ms, ms, recurring, cb)]), x)
  }

  function Refresh(t: Timers, x: Id, now: nat): (Timers, bool)
    requires Known(t.recs, t.order) && x in t.recs
  {
    if t.recs[x].cb == None || x !in t.order then (t, false)
    else
      var recs := t.recs[x := t.recs[x].(next := now + t.recs[x].ms)];
      var order := Erased(t.order, x);
      (t.(recs := recs, order := Inserted(recs, order, x)), true)
  }

  function Cancel(t: Timers, x: Id): (Timers, bool)
    requires x in t.recs
  {
    if t.recs[x].cb == None then (t, false)
    else (t.(recs := t.recs[x := t.recs[x].(cb := None)], order := Erased(t.order, x)), true)
  }

  /** The period starts now, or where the old one did. */
  function ResetRec(r: Rec, ms: nat, fromNow: bool, now: nat): Rec
    requires r.ms <= r.next
  {
    r.(ms := ms, next := (if fromNow then now else r.next - r.ms) + ms)
  }

  datatype ResetResult = ResetResult(timers: Timers, ok: bool, woke: bool)

  function Reset(t: Timers, x: Id, ms: nat, fromNow: bool, now: nat): ResetResult
    requires Known(t.recs, t.order) && x in t.recs && t.recs[x].ms <= t.recs[x].next
  {
    if ms == t.recs[x].ms && !fromNow then ResetResult(t, true, false)
    else if t.recs[x].cb == None || x !in t.order then ResetResult(t, false, false)
    else
      var recs := t.recs[x := ResetRec(t.recs[x], ms, fromNow, now)];
      var (t', woke) := Armed(t.(recs := recs, order := Erased(t.order, x)), x);
      ResetResult(t', true, woke)
  }

  /** `getNextTimer`; None is the all-ones timeout of an empty set. */
  function Next(t: Timers, now: nat): (Timers, Option<nat>)
    requires Known(t.recs, t.order)
  {
    (t.(tickled := false),
    if t.order == [] then None
    else if now >= t.recs[t.order[0]].next then Some(0)
    else Some(t.recs[t.order[0]].next - now))
  }

  /** The subtraction of an hour is done in unsigned arithmetic. */
  predicate Rollover(previous: nat, now: nat) {
    now < previous && (previous < HOUR || now < previous - HOUR)
  }

  /** How many timers, from the front, are due. */
  function DueCount(recs: map<Id, Rec>, order: seq<Id>, now: nat): (n: nat)
    requires Known(recs, order)
    ensures n <= |order|
    ensures forall i :: 0 <= i < n ==> recs[order[i]].next <= now
    ensures n < |order| ==> recs[order[n]].next > now
  {
    if order == [] || recs[order[0]].next > now then 0
    else
      assert order[0] in recs && forall i :: 0 <= i < |order[1..]| ==> order[1..][i] == order[i + 1];
      1 + DueCount(recs, order[1..], now)
  }

  /** Re-arm or retire one expired timer. */
  function RequeuedOne(t: Timers, x: Id, now: nat): (r: Timers)
    requires Known(t.recs, t.order) && x in t.recs
    ensures Known(r.recs, r.order) && r.recs.Keys == t.recs.Keys
  {
    if t.recs[x].recurring then
      var recs := t.recs[x := t.recs[x].(next := now + t.recs[x].ms)];
      t.(recs := recs, order := Inserted(recs, t.order, x))
    else
      t.(recs := t.recs[x := t.recs[x].(cb := None)])
  }

  function Requeued(t: Timers, expired: seq<Id>, now: nat): (r: Timers)
    requires Known(t.recs, t.order) && Known(t.recs, expired)
    ensures Known(r.recs, r.order) && r.recs.Keys == t.recs.Keys
    decreases expired
  {
    if expired == [] then t
    else
      assert expired[0] in t.recs && forall i :: 0 <= i < |expired[1..]| ==> expired[1..][i] == expired[i + 1];
      Requeued(RequeuedOne(t, expired[0], now), expired[1..], now)
  }

  /** `listExpiredCb`: the set afterwards and the timers whose callbacks are handed out. */
  function Expire(t: Timers, now: nat): (Timers, seq<Id>)
    requires Known(t.recs, t.order)
  {
    if t.order == [] then (t, [])
    else
      var roll := Rollover(t.previous, now);
      var t' := t.(previous := now);
      if !roll && t.recs[t.order[0]].next > now then (t', [])
      else
        var n := if roll then |t.order| else DueCount(t.recs, t.order, now);
        (Requeued(t'.(order := t.order[n..]), t.order[..n], now), t.order[..n])
  }

  // -------------------------------------------------------------- the sorted set

  lemma InsertedIsSorted(recs: map<Id, Rec>, order: seq<Id>, x: Id)
    requires Known(recs, order) && Sorted(recs, order) && x in recs && x !in order
    ensures Known(recs, Inserted(recs, order, x)) && Sorted(recs, Inserted(recs, order, x))
    ensures forall y :: y in Inserted(recs, order, x) <==> y in order || y == x
  {
    var r := Rank(recs, order, x);
    forall i | r <= i < |order|
      ensures Before(recs, x, order[i])
    {
      assert order[r] != x;
    }
  }

  lemma ErasedIsSorted(recs: map<Id, Rec>, order: seq<Id>, x: Id)
    requires Known(recs, order) && Sorted(recs, order)
    ensures Known(recs, Erased(order, x)) && Sorted(recs, Erased(order, x))
    ensures forall y :: y in Erased(order, x) <==> y in order && y != x
  {
    var i := IndexOf(order, x);
    if i < |order| {
      forall y | y in order && y != x
        ensures y in Erased(order, x)
      {
        var j :| 0 <= j < |order| && order[j] == y;
        assert Erased(order, x)[if j < i then j else j - 1] == y;
      }
      forall j | 0 <= j < |order| && j != i
        ensures order[j] != x
      {
        assert j > i ==> Before(recs, order[i], order[j]);
      }
    }
  }

  /** Sortedness depends only on the records of the members. */
  lemma SortedElsewhere(recs: map<Id, Rec>, recs': map<Id, Rec>, order: seq<Id>)
    requires Known(recs, order) && Sorted(recs, order)
    requires forall x :: x in order ==> x in recs' && recs'[x].next == recs[x].next
    ensures Known(recs', order) && Sorted(recs', order)
  {
    forall i, j | 0 <= i < j < |order|
      ensures Before(recs', order[i], order[j])
    {
      assert Before(recs, order[i], order[j]);
    }
  }
}
