/** What holds over whole runs of the scheduler. */
module SchedulerRuns {
  import opened Wrappers
  import opened FiberSync
  import opened Scheduler
  import opened SchedulerSafety
  import opened SchedulerDrain

  // ------------------------------------------------------------------ counters

  function Count<T>(xs: seq<T>, p: T -> bool): nat {
    if xs == [] then 0 else One(p(xs[0])) + Count(xs[1..], p)
  }

  function One(b: bool): nat {
    if b then 1 else 0
  }

  lemma {:induction false} CountUpdate<T>(xs: seq<T>, i: nat, x: T, p: T -> bool)
    requires i < |xs|
    ensures Count(xs[i := x], p) == Count(xs, p) - One(p(xs[i])) + One(p(x))
  {
    if i == 0 {
      assert xs[0 := x][1..] == xs[1..];
    } else {
      assert xs[i := x][1..] == xs[1..][i - 1 := x];
      CountUpdate(xs[1..], i - 1, x, p);
    }
  }

  lemma {:induction false} CountNone<T>(xs: seq<T>, p: T -> bool)
    requires forall i :: 0 <= i < |xs| ==> !p(xs[i])
    ensures Count(xs, p) == 0
  {
    if xs != [] {
      CountNone(xs[1..], p);
    }
  }

  lemma {:induction false} CountAppend<T>(xs: seq<T>, x: T, p: T -> bool)
    ensures Count(xs + [x], p) == Count(xs, p) + One(p(x))
  {
    if xs == [] {
      assert xs + [x] == [x];
    } else {
      assert (xs + [x])[1..] == xs[1..] + [x];
      CountAppend(xs[1..], x, p);
    }
  }

  lemma {:induction false} CountWithout<T>(xs: seq<T>, i: nat, p: T -> bool)
    requires i < |xs|
    ensures Count(xs, p) == Count(Without(xs, i), p) + One(p(xs[i]))
  {
    if i == 0 {
      assert Without(xs, 0) == xs[1..];
    } else {
      assert Without(xs, i)[1..] == Without(xs[1..], i - 1);
      CountWithout(xs[1..], i - 1, p);
    }
  }

  /** The worker has raised the active count and not yet lowered it. */
  predicate IsActive(wk: Worker) {
    wk.pc.Took? || wk.pc.Inside? || wk.pc.Back?
  }

  predicate IsIdling(wk: Worker) {
    wk.pc == Idling
  }

  function Queues(c: CallId): Entry -> bool {
    (e: Entry) => e.task == Call(c)
  }

  function HasTaken(c: CallId): Worker -> bool {
    (wk: Worker) => wk.pc == Took(Call(c))
  }

  /** The two counters count workers. */
  ghost predicate CountersOk(s: State) {
    && s.active == Count(s.workers, IsActive)
    && s.idling == Count(s.workers, IsIdling)
  }

  /** Every posting of `c` has been started, or is queued, or is in a worker's hand. */
  ghost predicate CallOk(s: State, c: CallId) {
    s.posted[c] == s.started[c] + Count(s.queue, Queues(c)) + Count(s.workers, HasTaken(c))
  }

  ghost predicate Tallied(s: State) {
    && CountersOk(s)
    && forall c: CallId :: CallOk(s, c)
  }

  /** One worker moves and the counters follow it. */
  lemma MoveTallied(s: State, s': State, w: nat)
    requires Tallied(s) && w < |s.workers| == |s'.workers|
    requires s'.workers == s.workers[w := s'.workers[w]] && s'.queue == s.queue && s'.posted == s.posted
    requires s'.active == s.active - One(IsActive(s.workers[w])) + One(IsActive(s'.workers[w]))
    requires s'.idling == s.idling - One(IsIdling(s.workers[w])) + One(IsIdling(s'.workers[w]))
    requires forall c: CallId ::
      s'.started[c] + One(HasTaken(c)(s'.workers[w])) == s.started[c] + One(HasTaken(c)(s.workers[w]))
    ensures Tallied(s')
  {
    CountUpdate(s.workers, w, s'.workers[w], IsActive);
    CountUpdate(s.workers, w, s'.workers[w], IsIdling);
    forall c: CallId
      ensures CallOk(s', c)
    {
      assert CallOk(s, c);
      CountUpdate(s.workers, w, s'.workers[w], HasTaken(c));
    }
  }

  /** One entry is appended to the queue. */
  lemma AppendTallied(s: State, s': State, e: Entry)
    requires Tallied(s)
    requires s'.workers == s.workers && s'.queue == s.queue + [e]
    requires s'.active == s.active && s'.idling == s.idling
    requires s'.started == s.started
    requires forall c: CallId :: s'.posted[c] == s.posted[c] + One(Queues(c)(e))
    ensures Tallied(s')
  {
    forall c: CallId
      ensures CallOk(s', c)
    {
      assert CallOk(s, c);
      CountAppend(s.queue, e, Queues(c));
    }
  }

  lemma TakeTallied(s: State, w: nat, i: nat)
    requires Tallied(s) && Enabled(s, Take(w, i))
    ensures Tallied(Apply(s, Take(w, i)))
  {
    var s' := Apply(s, Take(w, i));
    CountUpdate(s.workers, w, s'.workers[w], IsActive);
    CountUpdate(s.workers, w, s'.workers[w], IsIdling);
    forall c: CallId
      ensures CallOk(s', c)
    {
      assert CallOk(s, c);
      CountUpdate(s.workers, w, s'.workers[w], HasTaken(c));
      CountWithout(s.queue, i, Queues(c));
      assert HasTaken(c)(s'.workers[w]) == Queues(c)(s.queue[i]);
    }
  }

  lemma SettleTallied(s: State, w: nat)
    requires Tallied(s) && Enabled(s, Settle(w))
    ensures Tallied(AfterSwitch(s, w))
  {
    var s' := AfterSwitch(s, w);
    var mid := s'.(queue := s.queue);
    assert s'.workers == s.workers[w := s'.workers[w]] && s'.workers[w].pc == Scan;
    MoveTallied(s, mid, w);
    if s'.queue != s.queue {
      AppendTallied(mid, s', Entry(Resume(s.workers[w].pc.fiber), -1));
    }
  }

  lemma NotifyTallied(s: State, k: nat)
    requires Tallied(s) && k < |s.sems|
    ensures Tallied(NotifyOne(s, k))
  {
    var (sem, next) := AfterNotify(s.sems[k]);
    if next.Some? {
      AppendTallied(s, NotifyOne(s, k), Entry(Resume(next.value), -1));
    } else {
      SameTallied(s, NotifyOne(s, k));
    }
  }

  lemma SameTallied(s: State, s': State)
    requires Tallied(s)
    requires s'.workers == s.workers && s'.queue == s.queue && s'.active == s.active && s'.idling == s.idling
    requires s'.started == s.started && s'.posted == s.posted
    ensures Tallied(s')
  {
    forall c: CallId
      ensures CallOk(s', c)
    {
      assert CallOk(s, c);
    }
  }

  lemma {:induction false} EnqueueAllTallied(s: State, fs: seq<FiberId>)
    requires Tallied(s)
    ensures Tallied(EnqueueAll(s, fs))
    decreases fs
  {
    if fs != [] {
      AppendTallied(s, Enqueue(s, fs[0], -1), Entry(Resume(fs[0]), -1));
      EnqueueAllTallied(Enqueue(s, fs[0], -1), fs[1..]);
    }
  }

  lemma NotifyAllTallied(s: State, w: nat, k: nat)
    requires Tallied(s) && Enabled(s, SemNotifyAll(w, k))
    ensures Tallied(Apply(s, SemNotifyAll(w, k)))
  {
    var (sem, woken) := AfterNotifyAll(s.sems[k]);
    var mid := s.(sems := s.sems[k := sem]);
    SameTallied(s, mid);
    EnqueueAllTallied(mid, woken);
  }

  lemma WaitTallied(s: State, w: nat, k: nat)
    requires Tallied(s) && Enabled(s, SemWait(w, k))
    ensures Tallied(Apply(s, SemWait(w, k)))
  {
    var s' := Apply(s, SemWait(w, k));
    if s'.workers == s.workers {
      SameTallied(s, s');
    } else {
      MoveTallied(s, s', w);
    }
  }

  lemma SwitchToTallied(s: State, w: nat, pin: int)
    requires Tallied(s) && Enabled(s, SwitchTo(w, pin))
    ensures Tallied(Apply(s, SwitchTo(w, pin)))
  {
    MoveTallied(s, Park(s, w), w);
    AppendTallied(Park(s, w), Apply(s, SwitchTo(w, pin)), Entry(Resume(s.workers[w].pc.fiber), pin));
  }

  lemma BeginTallied(s: State, step: Step)
    requires Tallied(s) && Enabled(s, step)
    requires step.BeginFiber? || step.SkipEnded? || step.BeginCall?
    ensures Tallied(Apply(s, step))
  {
    var s' := Apply(s, step);
    assert s'.workers == s.workers[step.w := s'.workers[step.w]];
    MoveTallied(s, s', step.w);
  }

  lemma LoopTallied(s: State, step: Step)
    requires Tallied(s) && Enabled(s, step)
    requires step.FindNothing? || step.DropCount? || step.EnterIdle? || step.IdleReturn? || step.Leave?
    ensures Tallied(Apply(s, step))
  {
    var s' := Apply(s, step);
    assert s'.workers == s.workers[step.w := s'.workers[step.w]];
    MoveTallied(s, s', step.w);
  }

  lemma FiberTallied(s: State, step: Step)
    requires Tallied(s) && Enabled(s, step)
    requires step.HandOff? || step.MarkReady? || step.Finish? || step.SwapOut?
    ensures Tallied(Apply(s, step))
  {
    var s' := Apply(s, step);
    assert s'.workers == s.workers[step.w := s'.workers[step.w]];
    MoveTallied(s, s', step.w);
  }

  lemma LoopStepTallied(s: State, step: Step)
    requires Tallied(s) && Enabled(s, step) && LoopStep(step)
    ensures Tallied(Apply(s, step))
  {
    match step
    case Take(w, i) => TakeTallied(s, w, i);
    case FindNothing(w) => LoopTallied(s, step);
    case BeginFiber(w) => BeginTallied(s, step);
    case SkipEnded(w) => BeginTallied(s, step);
    case BeginCall(w, g) => BeginTallied(s, step);
    case DropCount(w) => LoopTallied(s, step);
    case EnterIdle(w) => LoopTallied(s, step);
    case IdleReturn(w) => LoopTallied(s, step);
    case Leave(w) => LoopTallied(s, step);
  }

  lemma OutsideTallied(s: State, step: Step)
    requires Tallied(s) && Enabled(s, step) && (Outside(step) || step.Stop?)
    ensures Tallied(Apply(s, step))
  {
    match step
    case OutsideCall(c, pin) => AppendTallied(s, EnqueueCall(s, c, pin), Entry(Call(c), pin));
    case OutsideFiber(f, pin) => AppendTallied(s, Spawn(s, f, pin), Entry(Resume(f), pin));
    case OutsideNotify(k) => NotifyTallied(s, k);
    case WakerFires(f, pin) => AppendTallied(s, Apply(s, step), Entry(Resume(f), pin));
    case Stop => SameTallied(s, Apply(s, step));
  }

  lemma StepTallied(s: State, step: Step)
    requires Tallied(s) && Enabled(s, step)
    ensures Tallied(Apply(s, step))
  {
    if LoopStep(step) {
      LoopStepTallied(s, step);
    } else if Outside(step) || step.Stop? {
      OutsideTallied(s, step);
    } else {
      match step
      case Settle(w) => SettleTallied(s, w);
      case SemWait(w, k) => WaitTallied(s, w, k);
      case SemTryWait(w, k) => SameTallied(s, Apply(s, step));
      case SemNotify(w, k) => NotifyTallied(s, k);
      case SemNotifyAll(w, k) => NotifyAllTallied(s, w, k);
      case HandOff(w) => FiberTallied(s, step);
      case SwitchTo(w, pin) => SwitchToTallied(s, w, pin);
      case MarkReady(w) => FiberTallied(s, step);
      case Finish(w, threw) => FiberTallied(s, step);
      case PostCall(w, c, pin) => AppendTallied(s, EnqueueCall(s, c, pin), Entry(Call(c), pin));
      case PostFiber(w, f, pin) => AppendTallied(s, Spawn(s, f, pin), Entry(Resume(f), pin));
      case SwapOut(w) => FiberTallied(s, step);
    }
  }

  // -------------------------------------------------------------- safety of runs

  ghost predicate Sound(s: State) {
    Inv(s) && Complete(s) && Tallied(s) && IdleOk(s)
  }

  /** The idle fiber runs exactly on an idling worker, and ends only after `stop`. */
  predicate IdleOk(s: State) {
    forall w :: 0 <= w < |s.workers| ==>
      var wk := s.workers[w];
      && (wk.idle == EXEC <==> wk.pc == Idling)
      && (wk.idle == TERM ==> s.stop)
      && (wk.pc == Left ==> wk.idle == TERM)
  }

  lemma {:induction false} EnqueueAllShape(s: State, fs: seq<FiberId>)
    ensures EnqueueAll(s, fs).workers == s.workers && EnqueueAll(s, fs).stop == s.stop
    ensures EnqueueAll(s, fs).queue == s.queue + ResumeAll(fs)
    decreases fs
  {
    if fs != [] {
      EnqueueAllShape(Enqueue(s, fs[0], -1), fs[1..]);
    }
  }

  function ResumeAll(fs: seq<FiberId>): (q: seq<Entry>)
    ensures |q| == |fs| && forall i :: 0 <= i < |q| ==> q[i] == Entry(Resume(fs[i]), -1)
  {
    seq(|fs|, i requires 0 <= i < |fs| => Entry(Resume(fs[i]), -1))
  }

  /** One worker moves and its idle fiber with it. */
  lemma MovedIdleOk(s: State, s': State, w: nat)
    requires IdleOk(s) && w < |s.workers| == |s'.workers| && s'.workers == s.workers[w := s'.workers[w]]
    requires s'.stop == s.stop
    requires var wk := s'.workers[w];
             && (wk.idle == EXEC <==> wk.pc == Idling)
             && (wk.idle == TERM ==> s'.stop)
             && (wk.pc == Left ==> wk.idle == TERM)
    ensures IdleOk(s')
  {
    forall v | 0 <= v < |s'.workers|
      ensures var wk := s'.workers[v];
              (wk.idle == EXEC <==> wk.pc == Idling) && (wk.idle == TERM ==> s'.stop)
                  && (wk.pc == Left ==> wk.idle == TERM)
    {
      assert v != w ==> s'.workers[v] == s.workers[v];
    }
  }

  lemma LoopIdleOk(s: State, step: Step)
    requires IdleOk(s) && Enabled(s, step) && LoopStep(step)
    ensures IdleOk(Apply(s, step))
  {
    LoopWorkersAfter(s, step);
    MovedIdleOk(s, Apply(s, step), step.w);
  }

  lemma FiberIdleOk(s: State, step: Step)
    requires IdleOk(s) && Enabled(s, step) && Mover(step).Some? && !LoopStep(step) && !step.SemNotifyAll?
    ensures IdleOk(Apply(s, step))
  {
    FiberWorkersAfter(s, step);
    MovedIdleOk(s, Apply(s, step), step.w);
  }

  lemma StepIdleOk(s: State, step: Step)
    requires IdleOk(s) && Enabled(s, step)
    ensures IdleOk(Apply(s, step))
  {
    if step.SemNotifyAll? {
      var (sem, woken) := AfterNotifyAll(s.sems[step.k]);
      EnqueueAllShape(s.(sems := s.sems[step.k := sem]), woken);
    } else if LoopStep(step) {
      LoopIdleOk(s, step);
    } else if Mover(step).Some? {
      FiberIdleOk(s, step);
    }
  }

  lemma InitialSound(s: State)
    requires Initial(s)
    ensures Sound(s)
  {
    CountNone(s.workers, IsActive);
    CountNone(s.workers, IsIdling);
    forall c: CallId
      ensures CallOk(s, c)
    {
      CountNone(s.workers, HasTaken(c));
      CountNone(s.queue, Queues(c));
    }
  }

  lemma {:induction false} RunIsSound(run: seq<State>, steps: seq<Step>, n: nat)
    requires IsRun(run, steps) && n < |run|
    ensures Sound(run[n])
  {
    if n == 0 {
      InitialSound(run[0]);
    } else {
      RunIsSound(run, steps, n - 1);
      StepKeeps(run[n - 1], steps[n - 1]);
      StepComplete(run[n - 1], steps[n - 1]);
      StepTallied(run[n - 1], steps[n - 1]);
      StepIdleOk(run[n - 1], steps[n - 1]);
    }
  }

  /** The assertions of the program text that worker `w` can reach: the fiber about to be
      resumed has not ended and does not run (`swapIn`); nor does the idle fiber; a fiber
      about to yield to hold still runs (`YieldToHold`); and a callback fiber about to be
      recycled has ended (`reset`). */
  predicate AssertionsHold(s: State, w: nat)
    requires w < |s.workers|
  {
    var wk := s.workers[w];
    && (wk.pc.Took? && wk.pc.task.Resume? ==>
          wk.pc.task.fiber in s.status && s.status[wk.pc.task.fiber] !in {EXEC, TERM, EXCEPT})
    && (wk.pc == NoWork ==> wk.idle != EXEC)
    && (wk.pc.Inside? && wk.pc.stage != Leaving ==> wk.pc.fiber in s.status && s.status[wk.pc.fiber] == EXEC)
    && (wk.pc.Took? && wk.callFiber.Some? ==>
          wk.callFiber.value in s.status && s.status[wk.callFiber.value] in {INIT, TERM, EXCEPT})
  }

  /** In every reachable state, whatever the interleaving, no two workers hold the same
      fiber and no assertion fails. */
  lemma NoFiberRunsTwice(run: seq<State>, steps: seq<Step>, n: nat)
    requires IsRun(run, steps) && n < |run|
    ensures forall v, w :: 0 <= v < w < |run[n].workers| && Held(run[n].workers[v]).Some? ==>
              Held(run[n].workers[v]) != Held(run[n].workers[w])
    ensures forall w :: 0 <= w < |run[n].workers| ==> AssertionsHold(run[n], w)
  {
    RunIsSound(run, steps, n);
    forall w | 0 <= w < |run[n].workers|
      ensures AssertionsHold(run[n], w)
    {
      assert WorkerOk(run[n], w);
    }
  }

  predicate WaitsAt(s: State, f: FiberId, k: nat) {
    k < |s.sems| && f in s.sems[k].waiters
  }

  /** A parked fiber that no worker has in hand can be woken in exactly one way: it is in
      the queue, or waits at one semaphore, or is with one waker, never in two of them;
      and the queue and the semaphores name it once. */
  lemma ParkedFiberHasOneWaker(run: seq<State>, steps: seq<Step>, n: nat, f: FiberId)
    requires IsRun(run, steps) && n < |run|
    requires f in run[n].status && run[n].status[f] == HOLD && !HeldBySome(run[n].workers, f)
    ensures InQueue(run[n].queue, f) || f in run[n].wakers || exists k :: WaitsAt(run[n], f, k)
    ensures !(InQueue(run[n].queue, f) && f in run[n].wakers)
    ensures forall k :: WaitsAt(run[n], f, k) ==> !InQueue(run[n].queue, f) && f !in run[n].wakers
    ensures forall k, l :: WaitsAt(run[n], f, k) && WaitsAt(run[n], f, l) ==> k == l
    ensures forall i, j :: 0 <= i < j < |run[n].queue| && run[n].queue[i].task == Resume(f) ==>
              run[n].queue[j].task != Resume(f)
  {
    var s := run[n];
    RunIsSound(run, steps, n);
    assert Accounted(s, f);
    forall w | 0 <= w < |s.workers|
      ensures Held(s.workers[w]) != Some(f) && s.workers[w].callFiber != Some(f)
    {
      assert WorkerOk(s, w);
    }
    if s.place[f].Waiting? {
      assert WaitsAt(s, f, s.place[f].sem);
    }
  }

  /** When `stopping()` answers yes, no worker is between taking and finishing an entry. */
  lemma StoppingMeansQuiet(run: seq<State>, steps: seq<Step>, n: nat, w: nat)
    requires IsRun(run, steps) && n < |run| && w < |run[n].workers|
    requires Stopping(run[n])
    ensures !IsActive(run[n].workers[w])
  {
    RunIsSound(run, steps, n);
    if IsActive(run[n].workers[w]) {
      CountAtLeast(run[n].workers, w, IsActive);
    }
  }

  lemma {:induction false} CountAtLeast<T>(xs: seq<T>, i: nat, p: T -> bool)
    requires i < |xs| && p(xs[i])
    ensures Count(xs, p) >= 1
  {
    if i > 0 {
      CountAtLeast(xs[1..], i - 1, p);
    }
  }

  // ------------------------------------------------------------------- draining

  /** The worker will not scan the queue again. */
  predicate Gone(wk: Worker) {
    wk.pc == Left || (wk.pc == NoWork && wk.idle == TERM)
  }

  predicate SomeoneScans(s: State) {
    exists w :: 0 <= w < |s.workers| && !Gone(s.workers[w])
  }

  predicate Unpinned(s: State) {
    forall i :: 0 <= i < |s.queue| ==> s.queue[i].pin == -1
  }

  /** Some entry is bound to no worker. */
  predicate Loose(s: State) {
    exists i :: 0 <= i < |s.queue| && s.queue[i].pin == -1
  }

  ghost predicate Drains(s: State) {
    |s.workers| > 0 && (Loose(s) ==> SomeoneScans(s))
  }

  /** The step is not outside scheduling after `stop`. */
  predicate Closed(s: State, step: Step) {
    s.stop ==> !Outside(step)
  }

  /** In addition it binds nothing to a worker. */
  predicate Calm(s: State, step: Step) {
    && Closed(s, step)
    && !step.SwitchTo?
    && (match step
        case PostCall(_, _, pin) => pin == -1
        case PostFiber(_, _, pin) => pin == -1
        case OutsideCall(_, pin) => pin == -1
        case OutsideFiber(_, pin) => pin == -1
        case WakerFires(_, pin) => pin == -1
        case _ => true)
  }

  /** What a step appends to the queue. */
  function Pushed(s: State, step: Step): seq<Entry>
    requires Enabled(s, step)
  {
    match step
    case PostCall(_, c, pin) => [Entry(Call(c), pin)]
    case OutsideCall(c, pin) => [Entry(Call(c), pin)]
    case PostFiber(_, f, pin) => [Entry(Resume(f), pin)]
    case OutsideFiber(f, pin) => [Entry(Resume(f), pin)]
    case WakerFires(f, pin) => [Entry(Resume(f), pin)]
    case SwitchTo(w, pin) => [Entry(Resume(s.workers[w].pc.fiber), pin)]
    case SemNotify(_, k) => if s.sems[k].waiters == [] then [] else [Entry(Resume(s.sems[k].waiters[0]), -1)]
    case OutsideNotify(k) => if s.sems[k].waiters == [] then [] else [Entry(Resume(s.sems[k].waiters[0]), -1)]
    case SemNotifyAll(_, k) => ResumeAll(s.sems[k].waiters)
    case Settle(w) =>
      if s.status[s.workers[w].pc.fiber] == READY then [Entry(Resume(s.workers[w].pc.fiber), -1)] else []
    case _ => []
  }

  lemma QueueAfter(s: State, step: Step)
    requires Enabled(s, step) && !step.Take?
    ensures Apply(s, step).queue == s.queue + Pushed(s, step)
  {
    if step.SemNotifyAll? {
      var (sem, woken) := AfterNotifyAll(s.sems[step.k]);
      EnqueueAllShape(s.(sems := s.sems[step.k := sem]), woken);
    }
  }

  /** The worker a step moves, if it moves one. */
  function Mover(step: Step): Option<nat> {
    if Outside(step) || step.Stop? then None else Some(step.w)
  }

  predicate OnlyMoves(s: State, s': State, w: nat) {
    w < |s.workers| == |s'.workers| && s'.workers == s.workers[w := s'.workers[w]]
  }

  lemma LoopWorkersAfter(s: State, step: Step)
    requires Enabled(s, step) && LoopStep(step)
    ensures OnlyMoves(s, Apply(s, step), step.w)
  {
  }

  lemma FiberWorkersAfter(s: State, step: Step)
    requires Enabled(s, step) && Mover(step).Some? && !LoopStep(step)
    ensures OnlyMoves(s, Apply(s, step), step.w)
  {
    if step.SemNotifyAll? {
      var (sem, woken) := AfterNotifyAll(s.sems[step.k]);
      EnqueueAllShape(s.(sems := s.sems[step.k := sem]), woken);
    }
  }

  lemma WorkersAfter(s: State, step: Step)
    requires Enabled(s, step)
    ensures Mover(step) == None ==> Apply(s, step).workers == s.workers
    ensures Mover(step).Some? ==> OnlyMoves(s, Apply(s, step), step.w)
  {
    if Mover(step).Some? {
      if LoopStep(step) {
        LoopWorkersAfter(s, step);
      } else {
        FiberWorkersAfter(s, step);
      }
    }
  }

  lemma LoopMoverScansOn(s: State, step: Step)
    requires Enabled(s, step) && LoopStep(step) && !step.FindNothing? && !step.Leave?
    ensures step.w < |Apply(s, step).workers| && !Gone(Apply(s, step).workers[step.w])
  {
  }

  lemma FiberMoverScansOn(s: State, step: Step)
    requires Enabled(s, step) && Mover(step).Some? && !LoopStep(step)
    ensures step.w < |Apply(s, step).workers| && !Gone(Apply(s, step).workers[step.w])
  {
    if step.SemNotifyAll? {
      var (sem, woken) := AfterNotifyAll(s.sems[step.k]);
      EnqueueAllShape(s.(sems := s.sems[step.k := sem]), woken);
    }
  }

  lemma MoverScansOn(s: State, step: Step)
    requires Enabled(s, step) && Mover(step).Some? && !step.FindNothing? && !step.Leave?
    ensures step.w < |Apply(s, step).workers| && !Gone(Apply(s, step).workers[step.w])
  {
    if LoopStep(step) {
      LoopMoverScansOn(s, step);
    } else {
      FiberMoverScansOn(s, step);
    }
  }

  lemma PushesUnpinned(s: State, step: Step)
    requires Enabled(s, step) && Calm(s, step)
    ensures forall i :: 0 <= i < |Pushed(s, step)| ==> Pushed(s, step)[i].pin == -1
  {
  }

  lemma StaysUnpinned(s: State, step: Step)
    requires Unpinned(s) && Enabled(s, step) && Calm(s, step)
    ensures Unpinned(Apply(s, step))
  {
    if step.Take? {
      assert Apply(s, step).queue == Without(s.queue, step.i);
    } else {
      QueueAfter(s, step);
      PushesUnpinned(s, step);
    }
  }

  /** Of the entries bound to no worker, one that finds nothing leaves behind only fibers that other
      workers still hold. */
  lemma LeftoversAreRunning(s: State, w: nat, i: nat)
    requires Sound(s) && Enabled(s, FindNothing(w)) && i < |s.queue| && s.queue[i].pin == -1
    ensures s.queue[i].task.Resume?
    ensures exists v :: 0 <= v < |s.workers| && v != w && Held(s.workers[v]) == Some(s.queue[i].task.fiber)
  {
    assert !Takes(s.queue[i], w, s.status);
    var f := s.queue[i].task.fiber;
    assert Accounted(s, f);
  }

  lemma {:induction false} FoundNothingScans(s: State, w: nat)
    requires Sound(s) && Enabled(s, FindNothing(w)) && Loose(s)
    ensures SomeoneScans(Apply(s, FindNothing(w)))
  {
    WorkersAfter(s, FindNothing(w));
    var i :| 0 <= i < |s.queue| && s.queue[i].pin == -1;
    LeftoversAreRunning(s, w, i);
    var v :| 0 <= v < |s.workers| && v != w && Held(s.workers[v]) == Some(s.queue[i].task.fiber);
    assert !Gone(Apply(s, FindNothing(w)).workers[v]);
  }

  lemma {:induction false} LeavingScans(s: State, step: Step)
    requires Enabled(s, step) && (step.Leave? || step.Stop?) && SomeoneScans(s)
    ensures SomeoneScans(Apply(s, step))
  {
    WorkersAfter(s, step);
    var v :| 0 <= v < |s.workers| && !Gone(s.workers[v]);
    assert !Gone(Apply(s, step).workers[v]);
  }

  lemma {:induction false} SomeoneStillScans(s: State, step: Step)
    requires Sound(s) && Drains(s) && Enabled(s, step) && Closed(s, step) && Loose(Apply(s, step))
    ensures SomeoneScans(Apply(s, step))
  {
    if step.FindNothing? {
      assert Apply(s, step).queue == s.queue;
      FoundNothingScans(s, step.w);
    } else if step.Leave? || step.Stop? {
      assert Apply(s, step).queue == s.queue;
      LeavingScans(s, step);
    } else if Outside(step) {
      WorkersAfter(s, step);
      assert !Gone(Apply(s, step).workers[0]);
    } else {
      MoverScansOn(s, step);
    }
  }

  lemma StepDrains(s: State, step: Step)
    requires Sound(s) && Drains(s) && Enabled(s, step) && Closed(s, step)
    ensures Drains(Apply(s, step))
  {
    WorkersAfter(s, step);
    if Loose(Apply(s, step)) {
      SomeoneStillScans(s, step);
    }
  }

  lemma {:induction false} RunDrains(run: seq<State>, steps: seq<Step>, n: nat)
    requires IsRun(run, steps) && n < |run| && |run[0].workers| > 0
    requires forall i :: 0 <= i < n ==> Closed(run[i], steps[i])
    ensures Drains(run[n])
  {
    if n > 0 {
      RunDrains(run, steps, n - 1);
      RunIsSound(run, steps, n - 1);
      StepDrains(run[n - 1], steps[n - 1]);
    }
  }

  lemma {:induction false} RunUnpinned(run: seq<State>, steps: seq<Step>, n: nat)
    requires IsRun(run, steps) && n < |run|
    requires forall i :: 0 <= i < n ==> Calm(run[i], steps[i])
    ensures Unpinned(run[n])
  {
    if n > 0 {
      RunUnpinned(run, steps, n - 1);
      StaysUnpinned(run[n - 1], steps[n - 1]);
    }
  }

  /** The fiber needs no worker: it has ended, is a recycled callback fiber, or is parked at a
      semaphore or with a waker. */
  ghost predicate AtRest(s: State, f: FiberId)
    requires f in s.status
  {
    || Ends(s.status[f])
    || (s.status[f] == INIT && exists w :: 0 <= w < |s.workers| && s.workers[w].callFiber == Some(f))
    || (s.status[f] == HOLD && (f in s.wakers || exists k :: WaitsAt(s, f, k)))
  }

  /** Shutdown in general: if nothing is scheduled from outside after `stop`, then once every worker
      has left `run` only entries that are bound to a worker can be left over; every posting of a
      callback has been started or is one of them; and every fiber is at rest or is one of them. */
  lemma {:induction false} ShutdownLeavesPinned(run: seq<State>, steps: seq<Step>, n: nat)
    requires IsRun(run, steps) && n < |run| && |run[0].workers| > 0
    requires forall i :: 0 <= i < n ==> Closed(run[i], steps[i])
    requires forall w :: 0 <= w < |run[n].workers| ==> run[n].workers[w].pc == Left
    ensures run[n].stop && forall i :: 0 <= i < |run[n].queue| ==> run[n].queue[i].pin != -1
    ensures forall c: CallId :: run[n].posted[c] == run[n].started[c] + Count(run[n].queue, Queues(c))
    ensures forall f :: f in run[n].status ==> AtRest(run[n], f) || InQueue(run[n].queue, f)
  {
    var s := run[n];
    RunIsSound(run, steps, n);
    RunDrains(run, steps, n);
    assert s.workers[0].idle == TERM;
    forall c: CallId
      ensures s.posted[c] == s.started[c] + Count(s.queue, Queues(c))
    {
      assert CallOk(s, c);
      CountNone(s.workers, HasTaken(c));
    }
    forall f | f in s.status
      ensures AtRest(s, f) || InQueue(s.queue, f)
    {
      assert Accounted(s, f);
      match s.place[f] {
        case Waiting(k) => assert WaitsAt(s, f, k);
        case Cached(w) => assert WorkerOk(s, w);
        case _ =>
      }
    }
  }

  /** Shutdown drains: if in addition entries are bound to no worker, then once every worker has
      left `run` the queue is empty, every posted callback has been started exactly as often as it
      was posted, and every fiber is at rest.  In particular a fiber re-queued after its worker
      lowered the active count is not lost. */
  lemma {:induction false} ShutdownDrains(run: seq<State>, steps: seq<Step>, n: nat)
    requires IsRun(run, steps) && n < |run| && |run[0].workers| > 0
    requires forall i :: 0 <= i < n ==> Calm(run[i], steps[i])
    requires forall w :: 0 <= w < |run[n].workers| ==> run[n].workers[w].pc == Left
    ensures run[n].stop && run[n].queue == []
    ensures run[n].started == run[n].posted
    ensures forall f :: f in run[n].status ==>
              || Ends(run[n].status[f])
              || (run[n].status[f] == INIT
                  && exists w :: 0 <= w < |run[n].workers| && run[n].workers[w].callFiber == Some(f))
              || (run[n].status[f] == HOLD && (f in run[n].wakers || exists k :: WaitsAt(run[n], f, k)))
  {
    ShutdownLeavesPinned(run, steps, n);
    RunUnpinned(run, steps, n);
    var s := run[n];
    assert forall c: CallId :: Count(s.queue, Queues(c)) == 0;
    assert forall f :: f in s.status ==> AtRest(s, f);
  }

  // ------------------------------------------------------------ bound to a worker

  /** What is scheduled goes to the end of the queue, bound as it was asked for; woken fibers and
      those that yield as ready are bound to nobody. */
  lemma {:induction false} ScheduledAsAsked(s: State, step: Step)
    requires Enabled(s, step)
    ensures step.PostCall? || step.OutsideCall? ==>
              Apply(s, step).queue == s.queue + [Entry(Call(step.call), step.pin)]
    ensures step.PostFiber? || step.OutsideFiber? || step.WakerFires? ==>
              Apply(s, step).queue == s.queue + [Entry(Resume(step.fiber), step.pin)]
    ensures step.SwitchTo? ==>
              Apply(s, step).queue == s.queue + [Entry(Resume(s.workers[step.w].pc.fiber), step.pin)]
    ensures step.Settle? && s.status[s.workers[step.w].pc.fiber] == READY ==>
              Apply(s, step).queue == s.queue + [Entry(Resume(s.workers[step.w].pc.fiber), -1)]
    ensures step.OutsideNotify? && s.sems[step.k].waiters != [] ==>
              Apply(s, step).queue == s.queue + [Entry(Resume(s.sems[step.k].waiters[0]), -1)]
  {
  }

  /** In every run a worker takes only entries that are bound to nobody or to itself, takes none
      whose fiber runs, and passes over nothing but entries bound to others and fibers. */
  lemma {:induction false} TakesItsOwn(run: seq<State>, steps: seq<Step>, n: nat)
    requires IsRun(run, steps) && n < |steps| && steps[n].Take?
    ensures var w, i, q := steps[n].w, steps[n].i, run[n].queue;
      && i < |q| && (q[i].pin == -1 || q[i].pin == w) && !Runs(q[i], run[n].status)
      && run[n + 1].queue == q[..i] + q[i + 1..]
      && (forall j :: 0 <= j < i ==> (q[j].pin != -1 && q[j].pin != w) || q[j].task.Resume?)
      && w < |run[n + 1].workers| && run[n + 1].workers[w].pc == Took(q[i].task)
  {
  }

  /** And one finds nothing only where each entry is bound to another worker or its fiber runs. */
  lemma {:induction false} FindsNothingIff(s: State, w: nat)
    requires w < |s.workers| && s.workers[w].pc == Scan
    ensures Enabled(s, FindNothing(w)) <==>
            forall j :: 0 <= j < |s.queue| ==>
              (s.queue[j].pin != -1 && s.queue[j].pin != w) || Runs(s.queue[j], s.status)
  {
    var i := FirstTaken(s.queue, w, s.status);
    if i < |s.queue| {
      assert !((s.queue[i].pin != -1 && s.queue[i].pin != w) || Runs(s.queue[i], s.status));
    }
  }

  /** Before step `n` every posting of the callback has been bound to worker `p`. */
  predicate PostedTo(steps: seq<Step>, n: nat, c: CallId, p: int)
    requires n <= |steps|
  {
    forall i :: 0 <= i < n && (steps[i].PostCall? || steps[i].OutsideCall?) && steps[i].call == c ==> steps[i].pin == p
  }

  ghost predicate KeptFor(s: State, c: CallId, p: int) {
    && (forall i :: 0 <= i < |s.queue| && s.queue[i].task == Call(c) ==> s.queue[i].pin == p)
    && (forall w :: 0 <= w < |s.workers| && s.workers[w].pc == Took(Call(c)) ==> w == p)
  }

  lemma {:induction false} TakeKeepsFor(s: State, w: nat, i: nat, c: CallId, p: int)
    requires Enabled(s, Take(w, i)) && KeptFor(s, c, p) && p != -1
    ensures KeptFor(Apply(s, Take(w, i)), c, p)
  {
  }

  lemma {:induction false} LoopTakesNothing(s: State, step: Step)
    requires Enabled(s, step) && LoopStep(step) && !step.Take?
    ensures step.w < |Apply(s, step).workers| && !Apply(s, step).workers[step.w].pc.Took?
  {
  }

  lemma {:induction false} FiberTakesNothing(s: State, step: Step)
    requires Enabled(s, step) && Mover(step).Some? && !LoopStep(step)
    ensures step.w < |Apply(s, step).workers| && !Apply(s, step).workers[step.w].pc.Took?
  {
    if step.SemNotifyAll? {
      var (sem, woken) := AfterNotifyAll(s.sems[step.k]);
      EnqueueAllShape(s.(sems := s.sems[step.k := sem]), woken);
    }
  }

  lemma {:induction false} NobodyTakes(s: State, step: Step, w: nat)
    requires Enabled(s, step) && !step.Take? && w < |Apply(s, step).workers| && Apply(s, step).workers[w].pc.Took?
    ensures w < |s.workers| && s.workers[w].pc == Apply(s, step).workers[w].pc
  {
    WorkersAfter(s, step);
    if Mover(step).Some? {
      if LoopStep(step) {
        LoopTakesNothing(s, step);
      } else {
        FiberTakesNothing(s, step);
      }
    }
  }

  lemma {:induction false} PushedCalls(s: State, step: Step, i: nat)
    requires Enabled(s, step) && i < |Pushed(s, step)| && Pushed(s, step)[i].task.Call?
    ensures step.PostCall? || step.OutsideCall?
    ensures Pushed(s, step)[i] == Entry(Call(step.call), step.pin)
  {
  }

  lemma {:induction false} StepKeepsFor(s: State, step: Step, c: CallId, p: int)
    requires Enabled(s, step) && KeptFor(s, c, p) && p != -1
    requires (step.PostCall? || step.OutsideCall?) && step.call == c ==> step.pin == p
    ensures KeptFor(Apply(s, step), c, p)
  {
    if step.Take? {
      TakeKeepsFor(s, step.w, step.i, c, p);
    } else {
      var s' := Apply(s, step);
      QueueAfter(s, step);
      forall i | 0 <= i < |s'.queue| && s'.queue[i].task == Call(c)
        ensures s'.queue[i].pin == p
      {
        if i >= |s.queue| {
          PushedCalls(s, step, i - |s.queue|);
        }
      }
      forall w | 0 <= w < |s'.workers| && s'.workers[w].pc == Took(Call(c))
        ensures w == p
      {
        NobodyTakes(s, step, w);
      }
    }
  }

  lemma {:induction false} RunKeepsFor(run: seq<State>, steps: seq<Step>, n: nat, c: CallId, p: int)
    requires IsRun(run, steps) && n < |run| && PostedTo(steps, n, c, p) && p != -1
    ensures KeptFor(run[n], c, p)
  {
    if n > 0 {
      RunKeepsFor(run, steps, n - 1, c, p);
      StepKeepsFor(run[n - 1], steps[n - 1], c, p);
    }
  }

  /** Over every run: a callback whose postings are all bound to one worker is started by that
      worker only. */
  lemma {:induction false} BoundCallStartsThere(run: seq<State>, steps: seq<Step>, n: nat, c: CallId, p: int)
    requires IsRun(run, steps) && n < |steps| && PostedTo(steps, n, c, p) && p != -1
    requires steps[n].BeginCall?
    ensures steps[n].w < |run[n].workers|
    ensures run[n].workers[steps[n].w].pc == Took(Call(c)) ==> steps[n].w == p
  {
    RunKeepsFor(run, steps, n, c, p);
  }
}
