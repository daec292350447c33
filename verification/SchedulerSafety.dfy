/** Safety of the fiber scheduler over every run. */
module SchedulerSafety {
  import opened Wrappers
  import opened FiberSync
  import opened Scheduler

  /** The fiber whose pointer the worker's loop variable (or its stack) holds. */
  function Held(wk: Worker): Option<FiberId> {
    match wk.pc
    case Took(Resume(f)) => Some(f)
    case Inside(f, _, _) => Some(f)
    case Back(f, _) => Some(f)
    case Dropped(f, _) => Some(f)
    case _ => None
  }

  /** The worker is between starting and settling a callback. */
  predicate InCallBranch(wk: Worker) {
    (wk.pc.Inside? || wk.pc.Back? || wk.pc.Dropped?) && wk.pc.viaCall
  }

  predicate GivenAway(p: Place) {
    p.Queued? || p.Waiting? || p.Handed?
  }

  /** What the worker's position says about the fiber it holds. */
  predicate WorkerOk(s: State, w: nat)
    requires w < |s.workers|
  {
    var wk := s.workers[w];
    && (Held(wk).Some? ==> Held(wk).value in s.status && Held(wk).value in s.place)
    && (match wk.pc
        case Took(t) => t.Resume? ==>
          s.place[t.fiber] == Owned(w) && s.status[t.fiber] in {INIT, HOLD, READY}
        case Inside(f, v, st) =>
          && (st == Active ==> s.place[f] == Owned(w) && s.status[f] == EXEC)
          && (st == Parking ==> GivenAway(s.place[f]) && s.status[f] == EXEC)
          && (st == Leaving ==> s.place[f] == Owned(w) && s.status[f] in {READY, TERM, EXCEPT})
        case Back(f, v) => Settling(s, w, f)
        case Dropped(f, v) => Settling(s, w, f)
        case _ => true)
    && (InCallBranch(wk) ==> wk.callFiber == Held(wk))
    && (wk.callFiber.Some? && !InCallBranch(wk) ==>
          var g := wk.callFiber.value;
          g in s.status && g in s.place && s.place[g] == Cached(w) && s.status[g] == INIT)
  }

  predicate Settling(s: State, w: nat, f: FiberId)
    requires f in s.status && f in s.place
  {
    || (GivenAway(s.place[f]) && s.status[f] == EXEC)
    || (s.place[f] == Owned(w) && s.status[f] in {READY, TERM, EXCEPT})
  }

  /** No two workers hold the same fiber. */
  predicate Alone(s: State) {
    forall v, w :: 0 <= v < w < |s.workers| && Held(s.workers[v]).Some? ==>
      Held(s.workers[v]) != Held(s.workers[w])
  }

  predicate QueueOk(s: State) {
    && (forall i :: 0 <= i < |s.queue| && s.queue[i].task.Resume? ==>
          var f := s.queue[i].task.fiber;
          f in s.place && s.place[f] == Queued && f in s.status && s.status[f] in {INIT, HOLD, READY, EXEC})
    && (forall i, j :: 0 <= i < j < |s.queue| && s.queue[i].task.Resume? ==> s.queue[i].task != s.queue[j].task)
  }

  predicate SemsOk(s: State) {
    && (forall k :: 0 <= k < |s.sems| ==> Tight(s.sems[k]))
    && (forall k, i :: 0 <= k < |s.sems| && 0 <= i < |s.sems[k].waiters| ==>
          var f := s.sems[k].waiters[i];
          f in s.place && s.place[f] == Waiting(k) && f in s.status && s.status[f] in {HOLD, EXEC})
    && (forall k, i, j :: 0 <= k < |s.sems| && 0 <= i < j < |s.sems[k].waiters| ==>
          s.sems[k].waiters[i] != s.sems[k].waiters[j])
  }

  predicate WakersOk(s: State) {
    forall f :: f in s.wakers ==>
      f in s.place && s.place[f] == Handed && f in s.status && s.status[f] in {HOLD, EXEC}
  }

  predicate Inv(s: State) {
    && s.place.Keys == s.status.Keys
    && (forall w :: 0 <= w < |s.workers| ==> WorkerOk(s, w))
    && Alone(s) && QueueOk(s) && SemsOk(s) && WakersOk(s)
  }

  // ------------------------------------------------------------------ framing

  /** `s'` differs from `s` at worker `w`, at the fiber `f` it holds, and in counters. */
  predicate LocalTo(s: State, s': State, w: nat, f: FiberId) {
    && w < |s.workers| && Held(s.workers[w]) == Some(f) && f in s.status && f in s.place
    && |s'.workers| == |s.workers|
    && (forall v :: 0 <= v < |s.workers| && v != w ==> s'.workers[v] == s.workers[v])
    && s'.status.Keys == s.status.Keys && s'.place.Keys == s.place.Keys
    && (forall g :: g in s.status && g != f ==> s'.status[g] == s.status[g])
    && (forall g :: g in s.place && g != f ==> s'.place[g] == s.place[g])
    && (Held(s'.workers[w]).Some? ==> Held(s'.workers[w]) == Some(f))
  }

  lemma OthersUnaffected(s: State, s': State, w: nat, f: FiberId)
    requires Inv(s) && LocalTo(s, s', w, f)
    ensures forall v :: 0 <= v < |s'.workers| && v != w ==> WorkerOk(s', v)
    ensures Alone(s')
  {
    assert WorkerOk(s, w);
    forall v | 0 <= v < |s'.workers| && v != w
      ensures WorkerOk(s', v)
    {
      assert WorkerOk(s, v);
      assert Held(s.workers[v]) != Some(f);
    }
  }

  /** The worker acts on its own fiber and nobody is given it. */
  lemma LocalKeeps(s: State, s': State, w: nat, f: FiberId)
    requires Inv(s) && LocalTo(s, s', w, f)
    requires s'.queue == s.queue && s'.sems == s.sems && s'.wakers == s.wakers
    requires WorkerOk(s', w)
    requires GivenAway(s.place[f]) ==> s'.place[f] == s.place[f] && s'.status[f] in {HOLD, EXEC}
    ensures Inv(s')
  {
    OthersUnaffected(s, s', w, f);
    assert WorkerOk(s, w);
  }

  /** A worker that holds no fiber moves on. */
  lemma IdleKeeps(s: State, s': State, w: nat)
    requires Inv(s) && w < |s.workers| && Held(s.workers[w]) == None
    requires |s'.workers| == |s.workers|
    requires forall v :: 0 <= v < |s.workers| && v != w ==> s'.workers[v] == s.workers[v]
    requires s'.workers[w].callFiber == s.workers[w].callFiber && Held(s'.workers[w]) == None
    requires s'.status == s.status && s'.place == s.place
    requires s'.queue == s.queue && s'.sems == s.sems && s'.wakers == s.wakers
    ensures Inv(s')
  {
    forall v | 0 <= v < |s'.workers|
      ensures WorkerOk(s', v)
    {
      assert WorkerOk(s, v);
    }
  }

  /** Nothing but a queue append (of a callback) and counters. */
  lemma EnqueueCallKeeps(s: State, c: CallId, pin: int)
    requires Inv(s)
    ensures Inv(EnqueueCall(s, c, pin))
  {
    var s' := EnqueueCall(s, c, pin);
    forall v | 0 <= v < |s'.workers|
      ensures WorkerOk(s', v)
    {
      assert WorkerOk(s, v);
    }
  }

  predicate NotWaiting(s: State, f: FiberId) {
    forall k :: 0 <= k < |s.sems| ==> f !in s.sems[k].waiters
  }

  /** A fiber that nobody else can resume is put into the queue. */
  lemma EnqueueKeeps(s: State, f: FiberId, pin: int)
    requires Inv(s)
    requires f in s.place && (s.place[f].Waiting? || s.place[f].Handed?) && s.status[f] in {HOLD, EXEC}
    requires f !in s.wakers
    requires NotWaiting(s, f)
    ensures Inv(Enqueue(s, f, pin))
  {
    var s' := Enqueue(s, f, pin);
    forall v | 0 <= v < |s'.workers|
      ensures WorkerOk(s', v)
    {
      assert WorkerOk(s, v);
    }
  }

  lemma {:induction false} EnqueueAllKeeps(s: State, fs: seq<FiberId>)
    requires Inv(s)
    requires forall i :: 0 <= i < |fs| ==>
      fs[i] in s.place && s.place[fs[i]].Waiting? && s.status[fs[i]] in {HOLD, EXEC}
    requires forall i :: 0 <= i < |fs| ==> NotWaiting(s, fs[i])
    requires forall i, j :: 0 <= i < j < |fs| ==> fs[i] != fs[j]
    ensures Inv(EnqueueAll(s, fs))
    decreases fs
  {
    if fs != [] {
      EnqueueKeeps(s, fs[0], -1);
      EnqueueAllKeeps(Enqueue(s, fs[0], -1), fs[1..]);
    }
  }

  /** A semaphore forgets its first waiters, or changes its count. */
  lemma ShrinkSemKeeps(s: State, k: nat, sem: Sem<FiberId>, n: nat)
    requires Inv(s) && k < |s.sems| && Tight(sem)
    requires n <= |s.sems[k].waiters| && sem.waiters == s.sems[k].waiters[n..]
    ensures Inv(s.(sems := s.sems[k := sem]))
    ensures forall i :: 0 <= i < n ==> NotWaiting(s.(sems := s.sems[k := sem]), s.sems[k].waiters[i])
  {
    var s' := s.(sems := s.sems[k := sem]);
    forall v | 0 <= v < |s'.workers|
      ensures WorkerOk(s', v)
    {
      assert WorkerOk(s, v);
    }
    assert SemsOk(s');
  }

  // ---------------------------------------------------------- the single steps

  lemma TakeKeeps(s: State, w: nat, i: nat)
    requires Inv(s) && Enabled(s, Take(w, i))
    ensures Inv(Apply(s, Take(w, i)))
  {
    var s' := Apply(s, Take(w, i));
    assert Takes(s.queue[i], w, s.status);
    forall v | 0 <= v < |s'.workers|
      ensures WorkerOk(s', v)
    {
      assert WorkerOk(s, v);
    }
    forall v | 0 <= v < |s.workers| && v != w
      ensures Held(s.workers[v]).Some? ==> Held(s.workers[v]) != Held(s'.workers[w])
    {
      assert WorkerOk(s, v);
    }
  }

  lemma BeginCallKeeps(s: State, w: nat, newFiber: FiberId)
    requires Inv(s) && Enabled(s, BeginCall(w, newFiber))
    ensures Inv(Apply(s, BeginCall(w, newFiber)))
  {
    var s' := Apply(s, BeginCall(w, newFiber));
    assert WorkerOk(s, w);
    forall v | 0 <= v < |s'.workers|
      ensures WorkerOk(s', v)
    {
      assert WorkerOk(s, v);
    }
    forall v | 0 <= v < |s.workers| && v != w
      ensures Held(s.workers[v]).Some? ==> Held(s.workers[v]) != Held(s'.workers[w])
    {
      assert WorkerOk(s, v);
    }
  }

  /** The worker gives the fiber it owns back to the queue. */
  lemma RequeueKeeps(s: State, s': State, w: nat, f: FiberId, pin: int)
    requires Inv(s) && LocalTo(s, s', w, f) && s.place[f] == Owned(w)
    requires s'.queue == s.queue + [Entry(Resume(f), pin)] && s'.sems == s.sems && s'.wakers == s.wakers
    requires s'.place[f] == Queued && s'.status[f] in {INIT, HOLD, READY, EXEC}
    requires WorkerOk(s', w)
    ensures Inv(s')
  {
    OthersUnaffected(s, s', w, f);
  }

  lemma SettleIsLocal(s: State, w: nat)
    requires Inv(s) && Enabled(s, Settle(w))
    ensures LocalTo(s, AfterSwitch(s, w), w, s.workers[w].pc.fiber)
  {
    assert WorkerOk(s, w);
  }

  lemma SettleReadyKeeps(s: State, w: nat)
    requires Inv(s) && Enabled(s, Settle(w)) && s.status[s.workers[w].pc.fiber] == READY
    ensures Inv(AfterSwitch(s, w))
  {
    SettleIsLocal(s, w);
    assert WorkerOk(s, w);
    RequeueKeeps(s, AfterSwitch(s, w), w, s.workers[w].pc.fiber, -1);
  }

  lemma {:induction false} SettleKeeps(s: State, w: nat)
    requires Inv(s) && Enabled(s, Settle(w))
    ensures Inv(AfterSwitch(s, w))
  {
    if s.status[s.workers[w].pc.fiber] == READY {
      SettleReadyKeeps(s, w);
    } else {
      SettleOtherKeeps(s, w);
    }
  }

  lemma {:induction false} SettleOtherKeeps(s: State, w: nat)
    requires Inv(s) && Enabled(s, Settle(w)) && s.status[s.workers[w].pc.fiber] != READY
    ensures Inv(AfterSwitch(s, w))
  {
    SettleIsLocal(s, w);
    assert WorkerOk(s, w);
    LocalKeeps(s, AfterSwitch(s, w), w, s.workers[w].pc.fiber);
  }

  lemma WaitKeeps(s: State, w: nat, k: nat)
    requires Inv(s) && Enabled(s, SemWait(w, k))
    ensures Inv(Apply(s, SemWait(w, k)))
  {
    assert WorkerOk(s, w);
    var f := s.workers[w].pc.fiber;
    match AfterWait(s.sems[k], f)
    case Granted(sem) => ShrinkSemKeeps(s, k, sem, 0);
    case Parked(sem) =>
      var s' := Apply(s, SemWait(w, k));
      OthersUnaffected(s, s', w, f);
  }

  lemma HandOffKeeps(s: State, w: nat)
    requires Inv(s) && Enabled(s, HandOff(w))
    ensures Inv(Apply(s, HandOff(w)))
  {
    assert WorkerOk(s, w);
    OthersUnaffected(s, Apply(s, HandOff(w)), w, s.workers[w].pc.fiber);
  }

  lemma SwitchToKeeps(s: State, w: nat, pin: int)
    requires Inv(s) && Enabled(s, SwitchTo(w, pin))
    ensures Inv(Apply(s, SwitchTo(w, pin)))
  {
    assert WorkerOk(s, w);
    RequeueKeeps(s, Apply(s, SwitchTo(w, pin)), w, s.workers[w].pc.fiber, pin);
  }

  lemma SpawnKeeps(s: State, f: FiberId, pin: int)
    requires Inv(s) && f !in s.status
    ensures Inv(Spawn(s, f, pin))
  {
    var s' := Spawn(s, f, pin);
    forall v | 0 <= v < |s'.workers|
      ensures WorkerOk(s', v)
    {
      assert WorkerOk(s, v);
    }
  }

  lemma NotifyKeeps(s: State, k: nat)
    requires Inv(s) && k < |s.sems|
    ensures Inv(NotifyOne(s, k))
  {
    var (sem, next) := AfterNotify(s.sems[k]);
    if next.Some? {
      ShrinkSemKeeps(s, k, sem, 1);
      assert next.value == s.sems[k].waiters[0];
      EnqueueKeeps(s.(sems := s.sems[k := sem]), next.value, -1);
    } else {
      ShrinkSemKeeps(s, k, sem, 0);
    }
  }

  lemma NotifyAllKeeps(s: State, w: nat, k: nat)
    requires Inv(s) && Enabled(s, SemNotifyAll(w, k))
    ensures Inv(Apply(s, SemNotifyAll(w, k)))
  {
    var (sem, woken) := AfterNotifyAll(s.sems[k]);
    ShrinkSemKeeps(s, k, sem, |woken|);
    EnqueueAllKeeps(s.(sems := s.sems[k := sem]), woken);
  }

  lemma WakerKeeps(s: State, f: FiberId, pin: int)
    requires Inv(s) && f in s.wakers
    ensures Inv(Enqueue(s.(wakers := s.wakers - {f}), f, pin))
  {
    var t := s.(wakers := s.wakers - {f});
    forall v | 0 <= v < |t.workers|
      ensures WorkerOk(t, v)
    {
      assert WorkerOk(s, v);
    }
    EnqueueKeeps(t, f, pin);
  }

  lemma LoopStepKeeps(s: State, step: Step)
    requires Inv(s) && Enabled(s, step) && LoopStep(step)
    ensures Inv(Apply(s, step))
  {
    match step
    case Take(w, i) => TakeKeeps(s, w, i);
    case FindNothing(w) => IdleKeeps(s, Apply(s, step), w);
    case EnterIdle(w) => IdleKeeps(s, Apply(s, step), w);
    case IdleReturn(w) => IdleKeeps(s, Apply(s, step), w);
    case Leave(w) => IdleKeeps(s, Apply(s, step), w);
    case BeginFiber(w) => BeginFiberKeeps(s, w);
    case SkipEnded(w) => BeginFiberKeeps(s, w);
    case BeginCall(w, g) => BeginCallKeeps(s, w, g);
    case DropCount(w) => SwitchKeeps(s, step);
  }

  lemma OutsideKeeps(s: State, step: Step)
    requires Inv(s) && Enabled(s, step) && (Outside(step) || step.Stop?)
    ensures Inv(Apply(s, step))
  {
    match step
    case OutsideCall(c, pin) => EnqueueCallKeeps(s, c, pin);
    case OutsideFiber(f, pin) => SpawnKeeps(s, f, pin);
    case OutsideNotify(k) => NotifyKeeps(s, k);
    case WakerFires(f, pin) => WakerKeeps(s, f, pin);
    case Stop => StopKeeps(s);
  }

  /** Every step keeps the invariant. */
  lemma StepKeeps(s: State, step: Step)
    requires Inv(s) && Enabled(s, step)
    ensures Inv(Apply(s, step))
  {
    if LoopStep(step) {
      LoopStepKeeps(s, step);
    } else if Outside(step) || step.Stop? {
      OutsideKeeps(s, step);
    } else {
      match step
      case Settle(w) => SettleKeeps(s, w);
      case SemWait(w, k) => WaitKeeps(s, w, k);
      case SemTryWait(w, k) => ShrinkSemKeeps(s, k, AfterTryWait(s.sems[k]).0, 0);
      case SemNotify(w, k) => NotifyKeeps(s, k);
      case SemNotifyAll(w, k) => NotifyAllKeeps(s, w, k);
      case HandOff(w) => HandOffKeeps(s, w);
      case SwitchTo(w, pin) => SwitchToKeeps(s, w, pin);
      case MarkReady(w) => LeavingKeeps(s, step);
      case Finish(w, threw) => LeavingKeeps(s, step);
      case PostCall(w, c, pin) => EnqueueCallKeeps(s, c, pin);
      case PostFiber(w, f, pin) => SpawnKeeps(s, f, pin);
      case SwapOut(w) => SwitchKeeps(s, step);
    }
  }

  lemma BeginFiberKeeps(s: State, w: nat)
    requires Inv(s)
    ensures Enabled(s, BeginFiber(w)) ==> Inv(Apply(s, BeginFiber(w)))
    ensures !Enabled(s, SkipEnded(w))
  {
    if w < |s.workers| {
      assert WorkerOk(s, w);
      if Enabled(s, BeginFiber(w)) {
        LocalKeeps(s, Apply(s, BeginFiber(w)), w, s.workers[w].pc.task.fiber);
      }
    }
  }

  lemma SwitchKeeps(s: State, step: Step)
    requires Inv(s) && Enabled(s, step) && (step.DropCount? || step.SwapOut?)
    ensures Inv(Apply(s, step))
  {
    assert WorkerOk(s, step.w);
    LocalKeeps(s, Apply(s, step), step.w, s.workers[step.w].pc.fiber);
  }

  lemma LeavingKeeps(s: State, step: Step)
    requires Inv(s) && Enabled(s, step) && (step.MarkReady? || step.Finish?)
    ensures Inv(Apply(s, step))
  {
    assert WorkerOk(s, step.w);
    LocalKeeps(s, Apply(s, step), step.w, s.workers[step.w].pc.fiber);
  }

  lemma StopKeeps(s: State)
    requires Inv(s)
    ensures Inv(s.(stop := true))
  {
    var t := s.(stop := true);
    forall v | 0 <= v < |t.workers|
      ensures WorkerOk(t, v)
    {
      assert WorkerOk(s, v);
    }
  }
}
