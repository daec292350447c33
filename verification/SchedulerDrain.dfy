/** Nothing is lost: every fiber stays accounted for, every callback is started once, and
    a scheduler that all workers have left is drained. */
module SchedulerDrain {
  import opened Wrappers
  import opened FiberSync
  import opened Scheduler
  import opened SchedulerSafety

  predicate InQueue(q: seq<Entry>, f: FiberId) {
    exists i :: 0 <= i < |q| && q[i].task == Resume(f)
  }

  predicate HeldBySome(ws: seq<Worker>, f: FiberId) {
    exists w :: 0 <= w < |ws| && Held(ws[w]) == Some(f)
  }

  /** The fiber really is where the bookkeeping says, and runs only on a worker. */
  predicate Accounted(s: State, f: FiberId)
    requires f in s.place && f in s.status
  {
    && (match s.place[f]
        case Queued => InQueue(s.queue, f)
        case Waiting(k) => k < |s.sems| && f in s.sems[k].waiters
        case Handed => f in s.wakers
        case Owned(w) => w < |s.workers| && Held(s.workers[w]) == Some(f)
        case Cached(w) => w < |s.workers| && s.workers[w].callFiber == Some(f)
        case Ended => Ends(s.status[f]))
    && (s.status[f] == EXEC ==> HeldBySome(s.workers, f))
  }

  predicate Complete(s: State) {
    && s.place.Keys == s.status.Keys
    && forall f :: f in s.place ==> Accounted(s, f)
  }

  // ------------------------------------------------------------------ framing

  lemma AppendKeepsInQueue(q: seq<Entry>, e: Entry, f: FiberId)
    ensures InQueue(q, f) || e.task == Resume(f) ==> InQueue(q + [e], f)
  {
    if InQueue(q, f) {
      var i :| 0 <= i < |q| && q[i].task == Resume(f);
      assert (q + [e])[i].task == Resume(f);
    } else if e.task == Resume(f) {
      assert (q + [e])[|q|].task == Resume(f);
    }
  }

  lemma WithoutKeepsInQueue(q: seq<Entry>, i: nat, f: FiberId)
    requires i < |q| && q[i].task != Resume(f)
    ensures InQueue(q, f) ==> InQueue(Without(q, i), f)
  {
    if InQueue(q, f) {
      var j :| 0 <= j < |q| && q[j].task == Resume(f);
      if j < i {
        assert Without(q, i)[j].task == Resume(f);
      } else {
        assert Without(q, i)[j - 1].task == Resume(f);
      }
    }
  }

  lemma SameWorkersHold(ws: seq<Worker>, ws': seq<Worker>, f: FiberId)
    requires |ws| == |ws'|
    requires forall w :: 0 <= w < |ws| && Held(ws[w]) == Some(f) ==> Held(ws'[w]) == Some(f)
    ensures HeldBySome(ws, f) ==> HeldBySome(ws', f)
  {
    if HeldBySome(ws, f) {
      var w :| 0 <= w < |ws| && Held(ws[w]) == Some(f);
      assert Held(ws'[w]) == Some(f);
    }
  }

  /** A fiber that the step does not touch stays accounted for. */
  lemma UntouchedAccounted(s: State, s': State, f: FiberId)
    requires f in s.place && f in s.status && Accounted(s, f)
    requires f in s'.place && f in s'.status && s'.place[f] == s.place[f] && s'.status[f] == s.status[f]
    requires InQueue(s.queue, f) ==> InQueue(s'.queue, f)
    requires forall k :: 0 <= k < |s.sems| && f in s.sems[k].waiters ==> k < |s'.sems| && f in s'.sems[k].waiters
    requires f in s.wakers ==> f in s'.wakers
    requires |s'.workers| == |s.workers|
    requires forall w :: 0 <= w < |s.workers| && Held(s.workers[w]) == Some(f) ==> Held(s'.workers[w]) == Some(f)
    requires forall w :: 0 <= w < |s.workers| && s.workers[w].callFiber == Some(f) && s.place[f] == Cached(w) ==>
      s'.workers[w].callFiber == Some(f)
    ensures Accounted(s', f)
  {
    SameWorkersHold(s.workers, s'.workers, f);
  }

  /** A step by worker `w` on its own fiber `f`, which ends up accounted for. */
  lemma LocalComplete(s: State, s': State, w: nat, f: FiberId)
    requires Inv(s) && Complete(s) && LocalTo(s, s', w, f)
    requires Accounted(s', f)
    requires s'.queue == s.queue || exists pin :: s'.queue == s.queue + [Entry(Resume(f), pin)]
    requires |s'.sems| == |s.sems|
    requires forall k, g :: 0 <= k < |s.sems| && g in s.sems[k].waiters ==> g in s'.sems[k].waiters
    requires s.wakers <= s'.wakers
    requires s'.workers[w].callFiber == s.workers[w].callFiber
          || (InCallBranch(s.workers[w]) && s'.workers[w].callFiber == None)
    ensures Complete(s')
  {
    assert WorkerOk(s, w);
    forall g | g in s'.place && g != f
      ensures Accounted(s', g)
    {
      if s'.queue != s.queue {
        var pin :| s'.queue == s.queue + [Entry(Resume(f), pin)];
        AppendKeepsInQueue(s.queue, Entry(Resume(f), pin), g);
      }
      UntouchedAccounted(s, s', g);
    }
  }

  lemma EnqueueComplete(s: State, f: FiberId, pin: int)
    requires f in s.place && f in s.status && s.place.Keys == s.status.Keys
    requires forall g :: g in s.place && g != f ==> Accounted(s, g)
    requires s.status[f] == EXEC ==> HeldBySome(s.workers, f)
    ensures Complete(Enqueue(s, f, pin))
  {
    var s' := Enqueue(s, f, pin);
    forall g | g in s'.place
      ensures Accounted(s', g)
    {
      AppendKeepsInQueue(s.queue, Entry(Resume(f), pin), g);
      if g != f {
        UntouchedAccounted(s, s', g);
      }
    }
  }

  /** All fibers but those of `fs` are accounted for, and those run only on workers. */
  predicate CompleteBut(s: State, fs: seq<FiberId>) {
    && s.place.Keys == s.status.Keys
    && (forall g :: g in s.place && g !in fs ==> Accounted(s, g))
    && (forall g :: g in fs ==> g in s.place && (s.status[g] == EXEC ==> HeldBySome(s.workers, g)))
  }

  lemma {:induction false} EnqueueAllComplete(s: State, fs: seq<FiberId>)
    requires CompleteBut(s, fs)
    ensures Complete(EnqueueAll(s, fs))
    decreases fs
  {
    if fs != [] {
      var f, s' := fs[0], Enqueue(s, fs[0], -1);
      forall g | g in s'.place && g !in fs[1..]
        ensures Accounted(s', g)
      {
        AppendKeepsInQueue(s.queue, Entry(Resume(f), -1), g);
        if g != f {
          UntouchedAccounted(s, s', g);
        }
      }
      EnqueueAllComplete(s', fs[1..]);
    }
  }

  lemma ReleaseComplete(s: State, k: nat, sem: Sem<FiberId>, n: nat)
    requires Inv(s) && Complete(s) && k < |s.sems|
    requires n <= |s.sems[k].waiters| && sem.waiters == s.sems[k].waiters[n..]
    ensures CompleteBut(s.(sems := s.sems[k := sem]), s.sems[k].waiters[..n])
  {
    var s' := s.(sems := s.sems[k := sem]);
    forall g | g in s'.place && g !in s.sems[k].waiters[..n]
      ensures Accounted(s', g)
    {
      UntouchedAccounted(s, s', g);
    }
  }

  // ---------------------------------------------------------- the single steps

  /** Steps that leave status, places, queue, semaphores and wakers alone. */
  lemma PlainComplete(s: State, s': State)
    requires Complete(s)
    requires s'.status == s.status && s'.place == s.place
    requires s'.sems == s.sems && s'.wakers == s.wakers
    requires s'.queue == s.queue || exists c, pin :: s'.queue == s.queue + [Entry(Call(c), pin)]
    requires |s'.workers| == |s.workers|
    requires forall w :: 0 <= w < |s.workers| ==>
      Held(s'.workers[w]) == Held(s.workers[w]) && s'.workers[w].callFiber == s.workers[w].callFiber
    ensures Complete(s')
  {
    forall g | g in s'.place
      ensures Accounted(s', g)
    {
      if s'.queue != s.queue {
        var c, pin :| s'.queue == s.queue + [Entry(Call(c), pin)];
        AppendKeepsInQueue(s.queue, Entry(Call(c), pin), g);
      }
      UntouchedAccounted(s, s', g);
    }
  }

  lemma TakeComplete(s: State, w: nat, i: nat)
    requires Inv(s) && Complete(s) && Enabled(s, Take(w, i))
    ensures Complete(Apply(s, Take(w, i)))
  {
    var s' := Apply(s, Take(w, i));
    forall g | g in s'.place
      ensures Accounted(s', g)
    {
      if s.queue[i].task == Resume(g) {
        assert Held(s'.workers[w]) == Some(g);
      } else {
        WithoutKeepsInQueue(s.queue, i, g);
        UntouchedAccounted(s, s', g);
      }
    }
  }

  lemma BeginFiberComplete(s: State, w: nat)
    requires Inv(s) && Complete(s) && Enabled(s, BeginFiber(w))
    ensures Complete(Apply(s, BeginFiber(w)))
  {
    assert WorkerOk(s, w);
    var f := s.workers[w].pc.task.fiber;
    var s' := Apply(s, BeginFiber(w));
    assert Held(s'.workers[w]) == Some(f);
    LocalComplete(s, s', w, f);
  }

  lemma BeginCallComplete(s: State, w: nat, newFiber: FiberId)
    requires Inv(s) && Complete(s) && Enabled(s, BeginCall(w, newFiber))
    ensures Complete(Apply(s, BeginCall(w, newFiber)))
  {
    assert WorkerOk(s, w);
    var s' := Apply(s, BeginCall(w, newFiber));
    var f := s'.workers[w].pc.fiber;
    assert Held(s'.workers[w]) == Some(f);
    forall g | g in s'.place && g != f
      ensures Accounted(s', g)
    {
      UntouchedAccounted(s, s', g);
    }
  }

  lemma SwitchComplete(s: State, step: Step)
    requires Inv(s) && Complete(s) && Enabled(s, step) && (step.DropCount? || step.SwapOut?)
    ensures Complete(Apply(s, step))
  {
    assert WorkerOk(s, step.w);
    var f := s.workers[step.w].pc.fiber;
    assert Held(Apply(s, step).workers[step.w]) == Some(f);
    LocalComplete(s, Apply(s, step), step.w, f);
  }

  lemma LeavingComplete(s: State, step: Step)
    requires Inv(s) && Complete(s) && Enabled(s, step) && (step.MarkReady? || step.Finish?)
    ensures Complete(Apply(s, step))
  {
    assert WorkerOk(s, step.w);
    var f := s.workers[step.w].pc.fiber;
    assert Held(Apply(s, step).workers[step.w]) == Some(f);
    LocalComplete(s, Apply(s, step), step.w, f);
  }

  lemma SettleAccounts(s: State, w: nat)
    requires Inv(s) && Complete(s) && Enabled(s, Settle(w))
    ensures var f, s' := s.workers[w].pc.fiber, AfterSwitch(s, w);
            f in s'.place && f in s'.status && Accounted(s', f)
  {
    assert WorkerOk(s, w);
    var f := s.workers[w].pc.fiber;
    assert Accounted(s, f);
    AppendKeepsInQueue(s.queue, Entry(Resume(f), -1), f);
  }

  lemma {:induction false} SettleComplete(s: State, w: nat)
    requires Inv(s) && Complete(s) && Enabled(s, Settle(w))
    ensures Complete(AfterSwitch(s, w))
  {
    SettleIsLocal(s, w);
    SettleAccounts(s, w);
    SettleQueue(s, w, AfterSwitch(s, w), s.workers[w].pc.fiber);
    SettledComplete(s, AfterSwitch(s, w), w, s.workers[w].pc.fiber);
  }

  lemma {:induction false} SettledComplete(s: State, s': State, w: nat, f: FiberId)
    requires Inv(s) && Complete(s) && LocalTo(s, s', w, f) && Accounted(s', f)
    requires s'.queue == s.queue || s'.queue == s.queue + [Entry(Resume(f), -1)]
    requires s'.sems == s.sems && s'.wakers == s.wakers
    requires s'.workers[w].callFiber == s.workers[w].callFiber
          || (InCallBranch(s.workers[w]) && s'.workers[w].callFiber == None)
    ensures Complete(s')
  {
    LocalComplete(s, s', w, f);
  }

  lemma {:induction false} SettleQueue(s: State, w: nat, s': State, f: FiberId)
    requires Enabled(s, Settle(w)) && s' == AfterSwitch(s, w) && f == s.workers[w].pc.fiber
    ensures s'.queue == s.queue || s'.queue == s.queue + [Entry(Resume(f), -1)]
    ensures s'.sems == s.sems && s'.wakers == s.wakers
    ensures s'.workers[w].callFiber == s.workers[w].callFiber
         || (InCallBranch(s.workers[w]) && s'.workers[w].callFiber == None)
  {
  }

  lemma WaitComplete(s: State, w: nat, k: nat)
    requires Inv(s) && Complete(s) && Enabled(s, SemWait(w, k))
    ensures Complete(Apply(s, SemWait(w, k)))
  {
    assert WorkerOk(s, w);
    var f := s.workers[w].pc.fiber;
    match AfterWait(s.sems[k], f)
    case Granted(sem) => ReleaseComplete(s, k, sem, 0);
    case Parked(sem) =>
      var s' := Apply(s, SemWait(w, k));
      assert Held(s'.workers[w]) == Some(f);
      LocalComplete(s, s', w, f);
  }

  lemma HandOffComplete(s: State, w: nat)
    requires Inv(s) && Complete(s) && Enabled(s, HandOff(w))
    ensures Complete(Apply(s, HandOff(w)))
  {
    assert WorkerOk(s, w);
    var f := s.workers[w].pc.fiber;
    assert Held(Apply(s, HandOff(w)).workers[w]) == Some(f);
    LocalComplete(s, Apply(s, HandOff(w)), w, f);
  }

  lemma SwitchToComplete(s: State, w: nat, pin: int)
    requires Inv(s) && Complete(s) && Enabled(s, SwitchTo(w, pin))
    ensures Complete(Apply(s, SwitchTo(w, pin)))
  {
    assert WorkerOk(s, w);
    var f := s.workers[w].pc.fiber;
    var s' := Apply(s, SwitchTo(w, pin));
    AppendKeepsInQueue(s.queue, Entry(Resume(f), pin), f);
    assert Held(s'.workers[w]) == Some(f);
    assert s'.queue == s.queue + [Entry(Resume(f), pin)];
    LocalComplete(s, s', w, f);
  }

  lemma SpawnComplete(s: State, f: FiberId, pin: int)
    requires Inv(s) && Complete(s) && f !in s.status
    ensures Complete(Spawn(s, f, pin))
  {
    var s' := Spawn(s, f, pin);
    forall g | g in s'.place
      ensures Accounted(s', g)
    {
      AppendKeepsInQueue(s.queue, Entry(Resume(f), pin), g);
      if g != f {
        UntouchedAccounted(s, s', g);
      }
    }
  }

  lemma NotifyComplete(s: State, k: nat)
    requires Inv(s) && Complete(s) && k < |s.sems|
    ensures Complete(NotifyOne(s, k))
  {
    var (sem, next) := AfterNotify(s.sems[k]);
    if next.Some? {
      ReleaseComplete(s, k, sem, 1);
      assert s.sems[k].waiters[..1] == [next.value];
      EnqueueComplete(s.(sems := s.sems[k := sem]), next.value, -1);
    } else {
      ReleaseComplete(s, k, sem, 0);
    }
  }

  lemma NotifyAllComplete(s: State, w: nat, k: nat)
    requires Inv(s) && Complete(s) && Enabled(s, SemNotifyAll(w, k))
    ensures Complete(Apply(s, SemNotifyAll(w, k)))
  {
    var (sem, woken) := AfterNotifyAll(s.sems[k]);
    ReleaseComplete(s, k, sem, |woken|);
    assert s.sems[k].waiters[..|woken|] == woken;
    EnqueueAllComplete(s.(sems := s.sems[k := sem]), woken);
  }

  lemma WakerComplete(s: State, f: FiberId, pin: int)
    requires Inv(s) && Complete(s) && f in s.wakers
    ensures Complete(Enqueue(s.(wakers := s.wakers - {f}), f, pin))
  {
    var t := s.(wakers := s.wakers - {f});
    forall g | g in t.place && g != f
      ensures Accounted(t, g)
    {
      UntouchedAccounted(s, t, g);
    }
    EnqueueComplete(t, f, pin);
  }

  lemma LoopStepComplete(s: State, step: Step)
    requires Inv(s) && Complete(s) && Enabled(s, step) && LoopStep(step)
    ensures Complete(Apply(s, step))
  {
    match step
    case Take(w, i) => TakeComplete(s, w, i);
    case FindNothing(w) => PlainComplete(s, Apply(s, step));
    case EnterIdle(w) => PlainComplete(s, Apply(s, step));
    case IdleReturn(w) => PlainComplete(s, Apply(s, step));
    case Leave(w) => PlainComplete(s, Apply(s, step));
    case BeginFiber(w) => BeginFiberComplete(s, w);
    case SkipEnded(w) => BeginFiberKeeps(s, w);
    case BeginCall(w, g) => BeginCallComplete(s, w, g);
    case DropCount(w) => SwitchComplete(s, step);
  }

  lemma OutsideComplete(s: State, step: Step)
    requires Inv(s) && Complete(s) && Enabled(s, step) && (Outside(step) || step.Stop?)
    ensures Complete(Apply(s, step))
  {
    match step
    case OutsideCall(c, pin) => PostComplete(s, c, pin);
    case OutsideFiber(f, pin) => SpawnComplete(s, f, pin);
    case OutsideNotify(k) => NotifyComplete(s, k);
    case WakerFires(f, pin) => WakerComplete(s, f, pin);
    case Stop => PlainComplete(s, s.(stop := true));
  }

  lemma StepComplete(s: State, step: Step)
    requires Inv(s) && Complete(s) && Enabled(s, step)
    ensures Complete(Apply(s, step))
  {
    if LoopStep(step) {
      LoopStepComplete(s, step);
    } else if Outside(step) || step.Stop? {
      OutsideComplete(s, step);
    } else {
      match step
      case Settle(w) => SettleComplete(s, w);
      case SemWait(w, k) => WaitComplete(s, w, k);
      case SemTryWait(w, k) => ReleaseComplete(s, k, AfterTryWait(s.sems[k]).0, 0);
      case SemNotify(w, k) => NotifyComplete(s, k);
      case SemNotifyAll(w, k) => NotifyAllComplete(s, w, k);
      case HandOff(w) => HandOffComplete(s, w);
      case SwitchTo(w, pin) => SwitchToComplete(s, w, pin);
      case MarkReady(w) => LeavingComplete(s, step);
      case Finish(w, threw) => LeavingComplete(s, step);
      case PostCall(w, c, pin) => PostComplete(s, c, pin);
      case PostFiber(w, f, pin) => SpawnComplete(s, f, pin);
      case SwapOut(w) => SwitchComplete(s, step);
    }
  }

  lemma PostComplete(s: State, c: CallId, pin: int)
    requires Complete(s)
    ensures Complete(EnqueueCall(s, c, pin))
  {
    assert EnqueueCall(s, c, pin).queue == s.queue + [Entry(Call(c), pin)];
    PlainComplete(s, EnqueueCall(s, c, pin));
  }
}
