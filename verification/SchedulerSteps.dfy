/** What the steps of the scheduler do, written out (src/Scheduler.cpp), that its semaphores are those
    of src/FiberSync.cpp, and that a worker which has not left can always go on. */
module SchedulerSteps {
  import opened Wrappers
  import opened FiberSync
  import opened Scheduler
  import opened SchedulerSafety
  import opened SchedulerRuns

  // ----------------------------------------------------------------- taking an entry

  /** An entry may be taken exactly by a worker that scans, if it is bound to nobody or to that worker
      and its fiber does not run, and if before it are only entries bound to others and fibers. */
  lemma {:induction false} TakesIff(s: State, w: nat, i: nat)
    requires w < |s.workers|
    ensures Enabled(s, Take(w, i)) <==>
            && s.workers[w].pc == Scan && i < |s.queue|
            && (s.queue[i].pin == -1 || s.queue[i].pin == w) && !Runs(s.queue[i], s.status)
            && forall j :: 0 <= j < i ==> (s.queue[j].pin != -1 && s.queue[j].pin != w) || s.queue[j].task.Resume?
  {
  }

  // ------------------------------------------------------------------- statuses

  lemma {:induction false} EnqueueAllStatus(s: State, fs: seq<FiberId>)
    ensures EnqueueAll(s, fs).status == s.status && EnqueueAll(s, fs).sems == s.sems
    ensures EnqueueAll(s, fs).active == s.active && EnqueueAll(s, fs).idling == s.idling
    decreases fs
  {
    if fs != [] {
      EnqueueAllStatus(Enqueue(s, fs[0], -1), fs[1..]);
    }
  }

  /** What a fiber's status becomes after its worker has got it back: one that is ready stays so, a
      callback's fiber that has ended can be used again, any other holds. */
  lemma {:induction false} SettleSets(s: State, w: nat)
    requires Enabled(s, Settle(w))
    ensures var f, s' := s.workers[w].pc.fiber, Apply(s, Settle(w));
      && s'.workers[w].pc == Scan
      && s'.status == (
           if s.status[f] == READY then s.status
           else if s.status[f] != TERM && s.status[f] != EXCEPT then s.status[f := HOLD]
           else if s.workers[w].pc.viaCall then s.status[f := INIT] else s.status)
      && s'.workers[w].callFiber == (
           if s.workers[w].pc.viaCall && s.status[f] != TERM && s.status[f] != EXCEPT then None
           else s.workers[w].callFiber)
  {
  }

  /** A fiber that is entered runs; other steps of a worker's loop set no status. */
  lemma {:induction false} LoopSets(s: State, step: Step)
    requires Enabled(s, step) && LoopStep(step)
    ensures Apply(s, step).status ==
            match step
            case BeginFiber(w) => s.status[s.workers[w].pc.task.fiber := EXEC]
            case BeginCall(w, f) => s.status[CallFiber(s.workers[w], f) := EXEC]
            case _ => s.status
  {
  }

  /** A callback runs on the fiber the worker keeps for this, or else on a new one. */
  function CallFiber(wk: Worker, newFiber: FiberId): FiberId {
    if wk.callFiber == None then newFiber else wk.callFiber.value
  }

  /** A fiber sets its own status, and that of a fiber it makes; nobody sets that of another. */
  lemma {:induction false} OtherSets(s: State, step: Step)
    requires Enabled(s, step) && !LoopStep(step) && !step.Settle?
    ensures Apply(s, step).status ==
            match step
            case MarkReady(w) => s.status[s.workers[w].pc.fiber := READY]
            case Finish(w, threw) => s.status[s.workers[w].pc.fiber := if threw then EXCEPT else TERM]
            case PostFiber(_, f, _) => s.status[f := INIT]
            case OutsideFiber(f, _) => s.status[f := INIT]
            case _ => s.status
  {
    if step.SemNotifyAll? {
      var (sem, woken) := AfterNotifyAll(s.sems[step.k]);
      EnqueueAllStatus(s.(sems := s.sems[step.k := sem]), woken);
    }
  }

  // ------------------------------------------------------------------ semaphores

  /** The operation of semaphore `k` that a step is, if it is one. */
  function OpOn(s: State, step: Step, k: nat): seq<Op<FiberId>>
    requires Enabled(s, step)
  {
    match step
    case SemWait(w, j) => if j == k then [DoWait(s.workers[w].pc.fiber)] else []
    case SemTryWait(_, j) => if j == k then [DoTryWait] else []
    case SemNotify(_, j) => if j == k then [DoNotify] else []
    case SemNotifyAll(_, j) => if j == k then [DoNotifyAll] else []
    case OutsideNotify(j) => if j == k then [DoNotify] else []
    case _ => []
  }

  lemma {:induction false} SemAfter(s: State, step: Step, k: nat, t: Trace<FiberId>)
    requires Enabled(s, step) && k < |s.sems| && t.sem == s.sems[k]
    ensures |Apply(s, step).sems| == |s.sems|
    ensures Apply(s, step).sems[k] == DoAll(t, OpOn(s, step, k)).sem
  {
    if step.SemNotifyAll? {
      var (sem, woken) := AfterNotifyAll(s.sems[step.k]);
      EnqueueAllStatus(s.(sems := s.sems[step.k := sem]), woken);
    }
    if OpOn(s, step, k) != [] {
      DoOne(t, OpOn(s, step, k)[0]);
    }
  }

  lemma {:induction false} DoOne<W>(t: Trace<W>, op: Op<W>)
    ensures DoAll(t, [op]) == Do(t, op)
  {
    var none: seq<Op<W>> := [];
    assert [op][1..] == none;
  }

  /** All the operations of semaphore `k` in the first `n` steps. */
  function OpsOn(run: seq<State>, steps: seq<Step>, n: nat, k: nat): seq<Op<FiberId>>
    requires |run| == |steps| + 1 && n <= |steps| && forall i :: 0 <= i < |steps| ==> Enabled(run[i], steps[i])
  {
    if n == 0 then [] else OpsOn(run, steps, n - 1, k) + OpOn(run[n - 1], steps[n - 1], k)
  }

  lemma {:induction false} DoAllAppend<W>(t: Trace<W>, ops: seq<Op<W>>, more: seq<Op<W>>)
    ensures DoAll(t, ops + more) == DoAll(DoAll(t, ops), more)
    decreases |ops|
  {
    if ops == [] {
      assert ops + more == more;
    } else {
      assert (ops + more)[1..] == ops[1..] + more;
      DoAllAppend(Do(t, ops[0]), ops[1..], more);
    }
  }

  /** In every run of the scheduler each semaphore is at every moment what its operations so far have
      made of it.  So its permits are conserved, and its waiters are queued in their order. */
  lemma {:induction false} SemaphoresAreSound(run: seq<State>, steps: seq<Step>, n: nat, k: nat)
    requires IsRun(run, steps) && n < |run| && k < |run[0].sems|
    ensures var t := DoAll(Begin<FiberId>(run[0].sems[k].count), OpsOn(run, steps, n, k));
      && |run[n].sems| == |run[0].sems| && run[n].sems[k] == t.sem
      && run[0].sems[k].count + t.issued == run[n].sems[k].count + t.passed + |t.woken|
      && t.parked == t.woken + run[n].sems[k].waiters
  {
    var begin := Begin<FiberId>(run[0].sems[k].count);
    if n > 0 {
      SemaphoresAreSound(run, steps, n - 1, k);
      var t := DoAll(begin, OpsOn(run, steps, n - 1, k));
      SemAfter(run[n - 1], steps[n - 1], k, t);
      DoAllAppend(begin, OpsOn(run, steps, n - 1, k), OpOn(run[n - 1], steps[n - 1], k));
    }
    DoAllKeepsBalance(begin, OpsOn(run, steps, n, k));
  }

  // -------------------------------------------------------------------- the end

  lemma {:induction false} StopAfter(s: State, step: Step)
    requires Enabled(s, step)
    ensures Apply(s, step).stop <==> s.stop || step.Stop?
  {
    if step.SemNotifyAll? {
      var (sem, woken) := AfterNotifyAll(s.sems[step.k]);
      EnqueueAllShape(s.(sems := s.sems[step.k := sem]), woken);
    }
  }

  lemma {:induction false} StopIffAsked(run: seq<State>, steps: seq<Step>, n: nat)
    requires IsRun(run, steps) && n < |run|
    ensures run[n].stop <==> exists m :: 0 <= m < n && steps[m].Stop?
  {
    if n > 0 {
      StopIffAsked(run, steps, n - 1);
      StopAfter(run[n - 1], steps[n - 1]);
      assert steps[n - 1].Stop? ==> exists m :: 0 <= m < n && steps[m].Stop?;
    }
  }

  lemma {:induction false} LoopEndsIff(s: State, step: Step, w: nat)
    requires Enabled(s, step) && LoopStep(step) && w < |s.workers| && s.workers[w].idle != TERM
    ensures |Apply(s, step).workers| == |s.workers|
    ensures Apply(s, step).workers[w].idle == TERM <==>
            step == IdleReturn(w) && s.stop && s.queue == [] && s.active == 0
  {
  }

  lemma {:induction false} OthersEndNone(s: State, step: Step, w: nat)
    requires Enabled(s, step) && !LoopStep(step) && w < |s.workers|
    ensures |Apply(s, step).workers| == |s.workers| && Apply(s, step).workers[w].idle == s.workers[w].idle
  {
    if step.SemNotifyAll? {
      var (sem, woken) := AfterNotifyAll(s.sems[step.k]);
      EnqueueAllShape(s.(sems := s.sems[step.k := sem]), woken);
    }
  }

  /** The idle fiber of a worker ends exactly when it is asked to go on after `stop` with the queue
      empty and no worker active. */
  lemma {:induction false} IdleEndsIff(s: State, step: Step, w: nat)
    requires Enabled(s, step) && w < |s.workers| && s.workers[w].idle != TERM
    ensures |Apply(s, step).workers| == |s.workers|
    ensures Apply(s, step).workers[w].idle == TERM <==>
            step == IdleReturn(w) && s.stop && s.queue == [] && s.active == 0
  {
    if LoopStep(step) {
      LoopEndsIff(s, step, w);
    } else {
      OthersEndNone(s, step, w);
    }
  }

  lemma {:induction false} EndedWhenQuiet(run: seq<State>, steps: seq<Step>, n: nat, w: nat) returns (m: nat)
    requires IsRun(run, steps) && n < |run| && w < |run[n].workers| && run[n].workers[w].idle == TERM
    ensures m < n && steps[m] == IdleReturn(w) && run[m].stop && run[m].queue == [] && run[m].active == 0
  {
    assert n > 0;
    WorkersAfter(run[n - 1], steps[n - 1]);
    if run[n - 1].workers[w].idle == TERM {
      m := EndedWhenQuiet(run, steps, n - 1, w);
    } else {
      IdleEndsIff(run[n - 1], steps[n - 1], w);
      m := n - 1;
    }
  }

  /** A worker leaves only after its idle fiber has seen `stop` set, the queue empty and no worker active. */
  lemma {:induction false} LeavesWhenQuiet(run: seq<State>, steps: seq<Step>, n: nat, w: nat) returns (m: nat)
    requires IsRun(run, steps) && n < |run| && w < |run[n].workers| && run[n].workers[w].pc == Left
    ensures m < n && run[m].stop && run[m].queue == [] && run[m].active == 0
  {
    RunIsSound(run, steps, n);
    m := EndedWhenQuiet(run, steps, n, w);
  }

  // ------------------------------------------------------------------- going on

  lemma {:induction false} AboveAll(ks: set<nat>) returns (f: nat)
    ensures f !in ks && forall k :: k in ks ==> k < f
  {
    if ks == {} {
      f := 0;
    } else {
      var k :| k in ks;
      f := AboveAll(ks - {k});
      f := if k < f then f else k + 1;
      assert forall j :: j in ks ==> j == k || j in ks - {k};
    }
  }

  /** In every reachable state each worker that has not left has a step of its own to make: nothing
      in its loop waits for another worker, and a fiber it carries can act. */
  lemma {:induction false} NeverStuck(run: seq<State>, steps: seq<Step>, n: nat, w: nat) returns (step: Step)
    requires IsRun(run, steps) && n < |run| && w < |run[n].workers| && run[n].workers[w].pc != Left
    ensures Enabled(run[n], step) && Mover(step) == Some(w)
  {
    RunIsSound(run, steps, n);
    step := NextStep(run[n], w);
  }

  lemma {:induction false} NextStep(s: State, w: nat) returns (step: Step)
    requires w < |s.workers| && WorkerOk(s, w) && s.workers[w].pc != Left
    ensures Enabled(s, step) && Mover(step) == Some(w)
  {
    match s.workers[w].pc
    case Scan =>
      var i := FirstTaken(s.queue, w, s.status);
      step := if i < |s.queue| then Take(w, i) else FindNothing(w);
    case NoWork => step := if s.workers[w].idle == TERM then Leave(w) else EnterIdle(w);
    case Took(t) =>
      if t.Call? {
        var f := AboveAll(s.status.Keys);
        step := BeginCall(w, f);
      } else {
        step := BeginFiber(w);
      }
    case Inside(f, viaCall, stage) => step := if stage == Active then Finish(w, false) else SwapOut(w);
    case Back(_, _) => step := DropCount(w);
    case Dropped(_, _) => step := Settle(w);
    case Idling => step := IdleReturn(w);
  }

  /** And a fiber that acts may do anything that fibers do. */
  lemma {:induction false} FiberMayAct(s: State, w: nat, k: nat, c: CallId, f: FiberId, pin: int, threw: bool)
    requires w < |s.workers| && s.workers[w].pc.Inside? && s.workers[w].pc.stage == Active
    ensures k < |s.sems| ==> Enabled(s, SemWait(w, k)) && Enabled(s, SemTryWait(w, k))
    ensures k < |s.sems| ==> Enabled(s, SemNotify(w, k)) && Enabled(s, SemNotifyAll(w, k))
    ensures Enabled(s, HandOff(w)) && Enabled(s, MarkReady(w)) && Enabled(s, Finish(w, threw))
    ensures Enabled(s, PostCall(w, c, pin)) && (f !in s.status ==> Enabled(s, PostFiber(w, f, pin)))
    ensures Enabled(s, SwitchTo(w, pin)) <==> pin != -1 && pin != w
  {
  }
}
