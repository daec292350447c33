/** The fiber scheduler as a step relation (src/Scheduler.cpp, src/Scheduler.h, src/Fiber.cpp).

    One step is one lock-protected section or one context switch of one worker, so the
    runs below are all interleavings of the workers' loops, of the fibers they carry and
    of the outside world. */
module Scheduler {
  import opened Wrappers
  import opened FiberSync

  type FiberId = nat
  type CallId = nat

  datatype Status = INIT | HOLD | EXEC | TERM | READY | EXCEPT

  datatype Task = Resume(fiber: FiberId) | Call(call: CallId)

  /** A queue element; `pin` is the worker it is bound to, or -1. */
  datatype Entry = Entry(task: Task, pin: int)

  /** What a running fiber is about to do: carry on; yield to hold because it has given
      itself to a waker; or leave with the status it has just stored. */
  datatype Stage = Active | Parking | Leaving

  /** Where a worker is in `run`; `viaCall` tells the callback branch from the fiber branch. */
  datatype Pc =
    | Scan
    | NoWork
    | Took(task: Task)
    | Inside(fiber: FiberId, viaCall: bool, stage: Stage)
    | Back(fiber: FiberId, viaCall: bool)
    | Dropped(fiber: FiberId, viaCall: bool)
    | Idling
    | Left

  /** A worker: its position, the fiber its `cb_fiber` points to, its idle fiber's status. */
  datatype Worker = Worker(pc: Pc, callFiber: Option<FiberId>, idle: Status)

  /** Who may resume a fiber next.  Bookkeeping only: no step is guarded by it. */
  datatype Place = Queued | Waiting(sem: nat) | Handed | Owned(worker: nat) | Cached(worker: nat) | Ended

  datatype State = State(
    status: map<FiberId, Status>,
    queue: seq<Entry>,
    workers: seq<Worker>,
    sems: seq<Sem<FiberId>>,
    wakers: set<FiberId>,
    active: int,
    idling: int,
    stop: bool,
    place: map<FiberId, Place>,
    posted: multiset<CallId>,
    started: multiset<CallId>)

  // ------------------------------------------------------------- queue scan

  /** The entry is to resume a fiber that is running. */
  predicate Runs(e: Entry, status: map<FiberId, Status>) {
    match e.task
    case Resume(f) => f in status && status[f] == EXEC
    case Call(_) => false
  }

  /** The scan takes an entry meant for this worker whose fiber is not running. */
  predicate Takes(e: Entry, me: nat, status: map<FiberId, Status>) {
    && (e.pin == -1 || e.pin == me)
    && !(e.task.Resume? && e.task.fiber in status && status[e.task.fiber] == EXEC)
  }

  function FirstTaken(q: seq<Entry>, me: nat, status: map<FiberId, Status>): (i: nat)
    ensures i <= |q|
    ensures i < |q| ==> Takes(q[i], me, status)
    ensures forall j :: 0 <= j < i ==> !Takes(q[j], me, status)
    ensures i < |q| ==> (q[i].pin == -1 || q[i].pin == me) && !Runs(q[i], status)
    ensures forall j :: 0 <= j < i ==> (q[j].pin != -1 && q[j].pin != me) || Runs(q[j], status)
  {
    if q == [] then 0
    else if Takes(q[0], me, status) then 0
    else 1 + FirstTaken(q[1..], me, status)
  }

  function Without<T>(q: seq<T>, i: nat): seq<T>
    requires i < |q|
  {
    q[..i] + q[i + 1..]
  }

  /** `_fibers` with the two operations that the workers and their clients perform on it. */
  class RunQueue {
    var fibers: seq<Entry>

    constructor ()
      ensures fibers == []
    {
      fibers := [];
    }

    /** `scheduleNoLock`: append, and report whether a tickle is due. */
    method ScheduleNoLock(e: Entry) returns (needTickle: bool)
      modifies this
      ensures fibers == old(fibers) + [e]
      ensures needTickle == (old(fibers) == [])
    {
      needTickle := fibers == [];
      fibers := fibers + [e];
    }

    /** The scan of `run`: unlink the first entry this worker may take; a tickle is due
        when an entry bound to another worker was stepped over. */
    method TakeFirst(me: nat, status: map<FiberId, Status>) returns (found: Option<Entry>, tickleMe: bool)
      modifies this
      ensures var i := FirstTaken(old(fibers), me, status);
              && (i == |old(fibers)| ==> found == None && fibers == old(fibers))
              && (i < |old(fibers)| ==> found == Some(old(fibers)[i]) && fibers == Without(old(fibers), i))
              && (forall j :: 0 <= j < i ==>
                    (old(fibers)[j].pin != -1 && old(fibers)[j].pin != me) || Runs(old(fibers)[j], status))
              && (found.Some? ==>
                    (found.value.pin == -1 || found.value.pin == me) && !Runs(found.value, status))
              && (tickleMe <==> exists j :: 0 <= j < i && old(fibers)[j].pin != -1 && old(fibers)[j].pin != me)
    {
      ghost var target := FirstTaken(fibers, me, status);
      var i := 0;
      tickleMe := false;
      while i < |fibers|
        invariant i <= target
        invariant fibers == old(fibers)
        invariant tickleMe <==> exists j :: 0 <= j < i && fibers[j].pin != -1 && fibers[j].pin != me
        decreases |fibers| - i
      {
        var e := fibers[i];
        if e.pin != -1 && e.pin != me {
          i := i + 1;
          tickleMe := true;
          continue;
        }
        if e.task.Resume? && e.task.fiber in status && status[e.task.fiber] == EXEC {
          i := i + 1;
          continue;
        }
        assert Takes(e, me, status);
        fibers := fibers[..i] + fibers[i + 1..];
        return Some(e), tickleMe;
      }
      found := None;
    }
  }

  // -------------------------------------------------------------------- steps

  datatype Step =
    // a worker's own loop
    | Take(w: nat, i: nat) | FindNothing(w: nat)
    | BeginFiber(w: nat) | SkipEnded(w: nat) | BeginCall(w: nat, newFiber: FiberId)
    | DropCount(w: nat) | Settle(w: nat)
    | EnterIdle(w: nat) | IdleReturn(w: nat) | Leave(w: nat)
    // the fiber a worker carries
    | SemWait(w: nat, k: nat) | SemTryWait(w: nat, k: nat) | SemNotify(w: nat, k: nat) | SemNotifyAll(w: nat, k: nat)
    | HandOff(w: nat) | SwitchTo(w: nat, pin: int)
    | MarkReady(w: nat) | Finish(w: nat, threw: bool)
    | PostCall(w: nat, call: CallId, pin: int) | PostFiber(w: nat, fiber: FiberId, pin: int)
    | SwapOut(w: nat)
    // everybody else
    | OutsideCall(call: CallId, pin: int) | OutsideFiber(fiber: FiberId, pin: int)
    | OutsideNotify(k: nat) | WakerFires(fiber: FiberId, pin: int) | Stop

  predicate Outside(step: Step) {
    step.OutsideCall? || step.OutsideFiber? || step.OutsideNotify? || step.WakerFires?
  }

  /** Steps of a worker's own loop, up to the switch to a fiber and back. */
  predicate LoopStep(step: Step) {
    || step.Take? || step.FindNothing? || step.BeginFiber? || step.SkipEnded? || step.BeginCall?
    || step.DropCount? || step.EnterIdle? || step.IdleReturn? || step.Leave?
  }

  predicate At(s: State, w: nat, pc: Pc) {
    w < |s.workers| && s.workers[w].pc == pc
  }

  /** Worker `w` carries a fiber that is free to act. */
  predicate Acting(s: State, w: nat) {
    w < |s.workers| && s.workers[w].pc.Inside? && s.workers[w].pc.stage == Active
  }

  predicate Ends(st: Status) {
    st == TERM || st == EXCEPT
  }

  /** `stopping()`: evaluated under the queue lock. */
  predicate Stopping(s: State) {
    s.stop && s.queue == [] && s.active == 0
  }

  /** The scan reads one status after the other while other workers may set them: a fiber that it
      stepped over as running may hold by the time it takes a later entry.  So any entry may be
      taken that is free now, and before which nothing stands that can never be stepped over.  A
      scan that finds nothing needs no such freedom: it could have read all statuses when it
      began, since while the queue is locked a queued fiber can stop running, but none can start. */
  predicate CanTake(s: State, w: nat, i: nat) {
    && i < |s.queue| && Takes(s.queue[i], w, s.status)
    && forall j :: 0 <= j < i ==> s.queue[j].task.Resume? || !Takes(s.queue[j], w, s.status)
  }

  /** Which steps the program text can perform in `s`.  The `status != EXEC` assertion
      of `swapIn` is deliberately not a guard of BeginFiber. */
  predicate Enabled(s: State, step: Step) {
    match step
    case Take(w, i) => At(s, w, Scan) && CanTake(s, w, i)
    case FindNothing(w) => At(s, w, Scan) && FirstTaken(s.queue, w, s.status) == |s.queue|
    case BeginFiber(w) =>
      && w < |s.workers| && s.workers[w].pc.Took? && s.workers[w].pc.task.Resume?
      && s.workers[w].pc.task.fiber in s.status && !Ends(s.status[s.workers[w].pc.task.fiber])
    case SkipEnded(w) =>
      && w < |s.workers| && s.workers[w].pc.Took? && s.workers[w].pc.task.Resume?
      && s.workers[w].pc.task.fiber in s.status && Ends(s.status[s.workers[w].pc.task.fiber])
    case BeginCall(w, newFiber) =>
      && w < |s.workers| && s.workers[w].pc.Took? && s.workers[w].pc.task.Call?
      && (s.workers[w].callFiber == None ==> newFiber !in s.status)
    case DropCount(w) => w < |s.workers| && s.workers[w].pc.Back?
    case Settle(w) => w < |s.workers| && s.workers[w].pc.Dropped? && s.workers[w].pc.fiber in s.status
    case EnterIdle(w) => At(s, w, NoWork) && s.workers[w].idle != TERM
    case Leave(w) => At(s, w, NoWork) && s.workers[w].idle == TERM
    case IdleReturn(w) => At(s, w, Idling)
    case SemWait(w, k) => Acting(s, w) && k < |s.sems|
    case SemTryWait(w, k) => Acting(s, w) && k < |s.sems|
    case SemNotify(w, k) => Acting(s, w) && k < |s.sems|
    case SemNotifyAll(w, k) => Acting(s, w) && k < |s.sems|
    case HandOff(w) => Acting(s, w)
    case SwitchTo(w, pin) => Acting(s, w) && pin != -1 && pin != w
    case MarkReady(w) => Acting(s, w)
    case Finish(w, threw) => Acting(s, w)
    case PostCall(w, c, pin) => Acting(s, w)
    case PostFiber(w, f, pin) => Acting(s, w) && f !in s.status
    case SwapOut(w) => w < |s.workers| && s.workers[w].pc.Inside? && s.workers[w].pc.stage != Active
    case OutsideCall(c, pin) => true
    case OutsideFiber(f, pin) => f !in s.status
    case OutsideNotify(k) => k < |s.sems|
    case WakerFires(f, pin) => f in s.wakers
    case Stop => true
  }

  function SetPc(s: State, w: nat, pc: Pc): State
    requires w < |s.workers|
  {
    s.(workers := s.workers[w := s.workers[w].(pc := pc)])
  }

  function Park(s: State, w: nat): State
    requires Acting(s, w)
  {
    SetPc(s, w, s.workers[w].pc.(stage := Parking))
  }

  /** `schedule(fiber, pin)` */
  function Enqueue(s: State, f: FiberId, pin: int): State {
    s.(queue := s.queue + [Entry(Resume(f), pin)], place := s.place[f := Queued])
  }

  function EnqueueAll(s: State, fs: seq<FiberId>): State
    decreases fs
  {
    if fs == [] then s else EnqueueAll(Enqueue(s, fs[0], -1), fs[1..])
  }

  function EnqueueCall(s: State, c: CallId, pin: int): State {
    s.(queue := s.queue + [Entry(Call(c), pin)], posted := s.posted + multiset{c})
  }

  function Spawn(s: State, f: FiberId, pin: int): State {
    Enqueue(s.(status := s.status[f := INIT]), f, pin)
  }

  function NotifyOne(s: State, k: nat): State
    requires k < |s.sems|
  {
    var (sem, next) := AfterNotify(s.sems[k]);
    var s' := s.(sems := s.sems[k := sem]);
    if next.Some? then Enqueue(s', next.value, -1) else s'
  }

  /** What follows a switch back, once the active count has been lowered. */
  function AfterSwitch(s: State, w: nat): State
    requires Enabled(s, Settle(w))
  {
    var wk := s.workers[w];
    var f := wk.pc.fiber;
    var forget := if wk.pc.viaCall then None else wk.callFiber;
    if s.status[f] == READY then
      Enqueue(s.(workers := s.workers[w := wk.(pc := Scan, callFiber := forget)]), f, -1)
    else if Ends(s.status[f]) then
      if wk.pc.viaCall then
        SetPc(s, w, Scan).(status := s.status[f := INIT], place := s.place[f := Cached(w)])
      else
        SetPc(s, w, Scan).(place := s.place[f := Ended])
    else
      s.(workers := s.workers[w := wk.(pc := Scan, callFiber := forget)], status := s.status[f := HOLD])
  }

  function Apply(s: State, step: Step): State
    requires Enabled(s, step)
  {
    match step
    case Take(w, i) =>
      var t := s.queue[i].task;
      SetPc(s, w, Took(t)).(
      queue := Without(s.queue, i),
      active := s.active + 1,
      place := if t.Resume? then s.place[t.fiber := Owned(w)] else s.place)
    case FindNothing(w) => SetPc(s, w, NoWork)
    case BeginFiber(w) =>
      var f := s.workers[w].pc.task.fiber;
      SetPc(s, w, Inside(f, false, Active)).(status := s.status[f := EXEC])
    case SkipEnded(w) => SetPc(s, w, Scan).(active := s.active - 1)
    case BeginCall(w, newFiber) =>
      var wk := s.workers[w];
      var f := if wk.callFiber.Some? then wk.callFiber.value else newFiber;
      s.(
      workers := s.workers[w := wk.(pc := Inside(f, true, Active), callFiber := Some(f))],
      status := s.status[f := EXEC],
      place := s.place[f := Owned(w)],
      started := s.started + multiset{wk.pc.task.call})
    case DropCount(w) =>
      SetPc(s, w, Dropped(s.workers[w].pc.fiber, s.workers[w].pc.viaCall)).(active := s.active - 1)
    case Settle(w) => AfterSwitch(s, w)
    case EnterIdle(w) =>
      s.(workers := s.workers[w := s.workers[w].(pc := Idling, idle := EXEC)], idling := s.idling + 1)
    case IdleReturn(w) =>
      s.(workers := s.workers[w := s.workers[w].(pc := Scan, idle := if Stopping(s) then TERM else HOLD)],
      idling := s.idling - 1)
    case Leave(w) => SetPc(s, w, Left)
    case SemWait(w, k) =>
      (match AfterWait(s.sems[k], s.workers[w].pc.fiber)
       case Granted(sem) => s.(sems := s.sems[k := sem])
       case Parked(sem) => Park(s, w).(sems := s.sems[k := sem], place := s.place[s.workers[w].pc.fiber := Waiting(k)]))
    case SemTryWait(w, k) => s.(sems := s.sems[k := AfterTryWait(s.sems[k]).0])
    case SemNotify(w, k) => NotifyOne(s, k)
    case SemNotifyAll(w, k) =>
      var (sem, woken) := AfterNotifyAll(s.sems[k]);
      EnqueueAll(s.(sems := s.sems[k := sem]), woken)
    case HandOff(w) =>
      var f := s.workers[w].pc.fiber;
      Park(s, w).(wakers := s.wakers + {f}, place := s.place[f := Handed])
    case SwitchTo(w, pin) => Enqueue(Park(s, w), s.workers[w].pc.fiber, pin)
    case MarkReady(w) =>
      SetPc(s, w, s.workers[w].pc.(stage := Leaving)).(status := s.status[s.workers[w].pc.fiber := READY])
    case Finish(w, threw) =>
      SetPc(s, w, s.workers[w].pc.(stage := Leaving)).(
      status := s.status[s.workers[w].pc.fiber := if threw then EXCEPT else TERM])
    case PostCall(w, c, pin) => EnqueueCall(s, c, pin)
    case PostFiber(w, f, pin) => Spawn(s, f, pin)
    case SwapOut(w) => SetPc(s, w, Back(s.workers[w].pc.fiber, s.workers[w].pc.viaCall))
    case OutsideCall(c, pin) => EnqueueCall(s, c, pin)
    case OutsideFiber(f, pin) => Spawn(s, f, pin)
    case OutsideNotify(k) => NotifyOne(s, k)
    case WakerFires(f, pin) => Enqueue(s.(wakers := s.wakers - {f}), f, pin)
    case Stop => s.(stop := true)
  }

  /** A started scheduler: `n` workers about to scan, nothing queued, any semaphores. */
  predicate Initial(s: State) {
    && s.status == map[] && s.place == map[] && s.queue == [] && s.wakers == {}
    && (forall w :: 0 <= w < |s.workers| ==> s.workers[w] == Worker(Scan, None, INIT))
    && (forall k :: 0 <= k < |s.sems| ==> s.sems[k].waiters == [])
    && s.active == 0 && s.idling == 0 && !s.stop
    && s.posted == multiset{} && s.started == multiset{}
  }

  /** `run[i]` is the state before `steps[i]`. */
  ghost predicate IsRun(run: seq<State>, steps: seq<Step>) {
    && |run| == |steps| + 1
    && Initial(run[0])
    && forall i :: 0 <= i < |steps| ==> Enabled(run[i], steps[i]) && run[i + 1] == Apply(run[i], steps[i])
  }
}
