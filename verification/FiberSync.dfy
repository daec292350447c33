/** Counting semaphore for fibers (src/FiberSync.cpp).

    A semaphore is a permit count and a queue of parked fibers.  Each function below
    is one critical section; the class performs the same updates on its own fields. */
module FiberSync {
  import opened Wrappers

  datatype Sem<W> = Sem(count: nat, waiters: seq<W>)

  /** What a critical section of `wait` tells its caller: go on, or yield to hold. */
  datatype Waited<W> = Granted(sem: Sem<W>) | Parked(sem: Sem<W>)

  function AfterWait<W>(s: Sem<W>, me: W): Waited<W> {
    if s.count > 0 then Granted(s.(count := s.count - 1))
    else Parked(s.(waiters := s.waiters + [me]))
  }

  function AfterTryWait<W>(s: Sem<W>): (Sem<W>, bool) {
    if s.count > 0 then (s.(count := s.count - 1), true) else (s, false)
  }

  function AfterNotify<W>(s: Sem<W>): (Sem<W>, Option<W>) {
    if s.waiters != [] then (s.(waiters := s.waiters[1..]), Some(s.waiters[0]))
    else (s.(count := s.count + 1), None)
  }

  function AfterNotifyAll<W>(s: Sem<W>): (Sem<W>, seq<W>) {
    (s.(waiters := []), s.waiters)
  }

  /** Nobody waits while a permit is free. */
  predicate Tight<W>(s: Sem<W>) {
    s.waiters != [] ==> s.count == 0
  }

  /** The object itself; `W` stands for a (scheduler, fiber) pair. */
  class FiberSemaphore<W> {
    var concurrency: nat
    var waiters: seq<W>

    function View(): Sem<W>
      reads this
    {
      Sem(concurrency, waiters)
    }

    constructor (initialConcurrency: nat)
      ensures View() == Sem(initialConcurrency, [])
    {
      concurrency, waiters := initialConcurrency, [];
    }

    method TryWait() returns (taken: bool)
      modifies this
      ensures (View(), taken) == AfterTryWait(old(View()))
      ensures taken <==> old(concurrency) > 0
      ensures concurrency == old(concurrency) - (if taken then 1 else 0) && waiters == old(waiters)
    {
      if concurrency > 0 {
        concurrency := concurrency - 1;
        return true;
      }
      return false;
    }

    /** `mustYield` tells the caller to leave through YieldToHold. */
    method Wait(me: W) returns (mustYield: bool)
      modifies this
      ensures AfterWait(old(View()), me) == if mustYield then Parked(View()) else Granted(View())
      ensures mustYield <==> old(concurrency) == 0
      ensures concurrency == old(concurrency) - (if mustYield then 0 else 1)
      ensures waiters == old(waiters) + if mustYield then [me] else []
    {
      if concurrency > 0 {
        concurrency := concurrency - 1;
        return false;
      }
      waiters := waiters + [me];
      return true;
    }

    /** `next` is handed to its scheduler. */
    method Notify() returns (next: Option<W>)
      modifies this
      ensures (View(), next) == AfterNotify(old(View()))
      ensures next.Some? <==> old(waiters) != []
      ensures next.Some? ==> old(waiters) == [next.value] + waiters && concurrency == old(concurrency)
      ensures next.None? ==> waiters == [] && concurrency == old(concurrency) + 1
    {
      if waiters != [] {
        next := Some(waiters[0]);
        waiters := waiters[1..];
      } else {
        concurrency := concurrency + 1;
        next := None;
      }
    }

    /** `woken` are handed to their schedulers in this order. */
    method NotifyAll() returns (woken: seq<W>)
      modifies this
      ensures (View(), woken) == AfterNotifyAll(old(View()))
      ensures woken == old(waiters) && waiters == [] && concurrency == old(concurrency)
    {
      woken := [];
      for i := 0 to |waiters|
        invariant woken == waiters[..i]
        invariant View() == old(View())
      {
        woken := woken + [waiters[i]];
      }
      assert woken == waiters;
      waiters := [];
    }
  }

  // ---------------------------------------------------------------- whole runs

  datatype Op<W> = DoTryWait | DoWait(who: W) | DoNotify | DoNotifyAll

  /** A semaphore together with what has been observed of it.
      `issued` counts notifications that carried a permit (a notifyAll carries one per
      waiter); `passed` counts waits that went straight through; `parked` and `woken`
      list the waiters in the order they parked and were handed back. */
  datatype Trace<W> = Trace(sem: Sem<W>, initial: nat, issued: nat, passed: nat, parked: seq<W>, woken: seq<W>)

  function Begin<W>(initial: nat): Trace<W> {
    Trace(Sem(initial, []), initial, 0, 0, [], [])
  }

  function Do<W>(t: Trace<W>, op: Op<W>): Trace<W> {
    match op
    case DoTryWait =>
      var (s, ok) := AfterTryWait(t.sem);
      t.(sem := s, passed := t.passed + if ok then 1 else 0)
    case DoWait(w) =>
      (match AfterWait(t.sem, w)
       case Granted(s) => t.(sem := s, passed := t.passed + 1)
       case Parked(s) => t.(sem := s, parked := t.parked + [w]))
    case DoNotify =>
      var (s, next) := AfterNotify(t.sem);
      t.(sem := s, issued := t.issued + 1, woken := t.woken + if next.Some? then [next.value] else [])
    case DoNotifyAll =>
      var (s, all) := AfterNotifyAll(t.sem);
      t.(sem := s, issued := t.issued + |all|, woken := t.woken + all)
  }

  function DoAll<W>(t: Trace<W>, ops: seq<Op<W>>): Trace<W>
    decreases ops
  {
    if ops == [] then t else DoAll(Do(t, ops[0]), ops[1..])
  }

  ghost predicate Balanced<W>(t: Trace<W>) {
    && Tight(t.sem)
    && t.parked == t.woken + t.sem.waiters
    && t.initial + t.issued == t.sem.count + t.passed + |t.woken|
  }

  lemma DoKeepsBalance<W>(t: Trace<W>, op: Op<W>)
    requires Balanced(t)
    ensures Balanced(Do(t, op)) && Do(t, op).initial == t.initial
  {
    if op.DoNotify? && t.sem.waiters != [] {
      assert t.sem.waiters == [t.sem.waiters[0]] + t.sem.waiters[1..];
    }
  }

  lemma {:induction false} DoAllKeepsBalance<W>(t: Trace<W>, ops: seq<Op<W>>)
    requires Balanced(t)
    ensures Balanced(DoAll(t, ops)) && DoAll(t, ops).initial == t.initial
    decreases ops
  {
    if ops != [] {
      DoKeepsBalance(t, ops[0]);
      DoAllKeepsBalance(Do(t, ops[0]), ops[1..]);
    }
  }

  /** Over every run from construction: nobody waits while a permit is free; permits are
      conserved; and waiters are handed back in exactly the order in which they parked. */
  lemma SemaphoreRun<W>(initial: nat, ops: seq<Op<W>>)
    ensures var t := DoAll(Begin<W>(initial), ops);
            && (t.sem.waiters != [] ==> t.sem.count == 0)
            && initial + t.issued == t.sem.count + t.passed + |t.woken|
            && t.woken <= t.parked
            && t.parked[|t.woken|..] == t.sem.waiters
  {
    DoAllKeepsBalance(Begin<W>(initial), ops);
  }

  /** At every point of every run: a tryWait takes a permit exactly if one is free, a wait parks the
      caller at the back exactly if none is, a notify frees a permit exactly if nobody waits and
      else wakes the first in line, and a notifyAll wakes everybody. */
  lemma SemaphoreAnswers<W>(initial: nat, ops: seq<Op<W>>, me: W)
    ensures var s := DoAll(Begin<W>(initial), ops).sem;
            && AfterTryWait(s) == (if s.count > 0 then (Sem(s.count - 1, []), true) else (s, false))
            && AfterWait(s, me) == (if s.count > 0 then Granted(Sem(s.count - 1, []))
                                    else Parked(Sem(0, s.waiters + [me])))
            && AfterNotifyAll(s) == (Sem(s.count, []), s.waiters)
            && (s.waiters == [] ==> AfterNotify(s) == (Sem(s.count + 1, []), None))
            && (s.waiters != [] ==> AfterNotify(s) == (Sem(0, s.waiters[1..]), Some(s.waiters[0])))
  {
    DoAllKeepsBalance(Begin<W>(initial), ops);
  }
}
